/** libfdt/fdt_sw.c: the sequential writer. */
module SeqWrite {
  // The structure block grows upwards from offDtStruct, the strings grow downwards from the end of the buffer.

  import opened Bytes
  import opened Tags
  import opened Blob
  import opened Forests
  import opened Edits
  import opened Trees
  import opened Events
  import opened Reserve
  import opened Packing
  import Checking
  import ReadWrite
  import FdtCore
  import Walk

  const HEADER_SIZE := 48  // FDT_ALIGN(sizeof(struct fdt_header), sizeof(struct fdt_reserve_entry))
  const NO_NAME_DEDUP: u32 := 1
  const MAX_LEN := INT_MAX - 32

  // ---------- States ----------

  /** fdt_sw_probe_memrsv_ */
  function MemrsvError(h: Header): int {
    if h.magic == FDT_MAGIC then -BADSTATE
    else if h.magic != FDT_SW_MAGIC then -BADMAGIC
    else if h.offDtStrings != 0 then -BADSTATE
    else 0
  }

  /** fdt_sw_probe_struct_ */
  function StructError(h: Header): int {
    if h.magic == FDT_MAGIC then -BADSTATE
    else if h.magic != FDT_SW_MAGIC then -BADMAGIC
    else if h.offDtStrings != h.totalsize then -BADSTATE
    else 0
  }

  /**
   * What every unfinished tree keeps: structure and strings do not overlap. offDtStrings tells the
   * phase: 0 while the reserve map is written, then totalsize.
   */
  ghost predicate Unfinished(fdt: Fdt)
    reads fdt
  {
    && fdt.magic == FDT_SW_MAGIC && fdt.version == FDT_LAST_SUPPORTED_VERSION && fdt.lastCompVersion <= NO_NAME_DEDUP
    && fdt.totalsize <= fdt.mem.Length && fdt.totalsize < INT_MAX && fdt.offMemRsvmap == HEADER_SIZE
    && HEADER_SIZE <= fdt.offDtStruct && fdt.offDtStruct + fdt.sizeDtStruct + fdt.sizeDtStrings <= fdt.totalsize
    && (if fdt.offDtStrings == 0 then fdt.sizeDtStruct == 0 && fdt.sizeDtStrings == 0
        else fdt.offDtStrings == fdt.totalsize && HEADER_SIZE + 16 <= fdt.offDtStruct)
  }

  /** The structure block so far. */
  ghost function Struct(fdt: Fdt): bytes
    requires Unfinished(fdt)
    reads fdt, fdt.mem
  {
    Block(fdt.mem[..], fdt.offDtStruct, fdt.sizeDtStruct)
  }

  /** The strings so far, at the end of the buffer. */
  ghost function Strings(fdt: Fdt): bytes
    requires Unfinished(fdt)
    reads fdt, fdt.mem
  {
    Block(fdt.mem[..], fdt.totalsize - fdt.sizeDtStrings, fdt.sizeDtStrings)
  }

  /** What comes before the structure block: the place of the header, and the reserve map. */
  ghost function Head(fdt: Fdt): bytes
    requires Unfinished(fdt)
    reads fdt, fdt.mem
  {
    Block(fdt.mem[..], 0, fdt.offDtStruct)
  }

  lemma Areas(fdt: Fdt)
    requires Unfinished(fdt)
    ensures fdt.offDtStruct + fdt.sizeDtStruct <= fdt.totalsize - fdt.sizeDtStrings
    ensures 0 <= fdt.totalsize - fdt.sizeDtStrings && fdt.totalsize <= |fdt.mem[..]|
    ensures Struct(fdt) == Block(fdt.mem[..], fdt.offDtStruct, fdt.sizeDtStruct)
    ensures Strings(fdt) == Block(fdt.mem[..], fdt.totalsize - fdt.sizeDtStrings, fdt.sizeDtStrings)
    ensures Head(fdt) == Block(fdt.mem[..], 0, fdt.offDtStruct)
  {
  }

  /** The header and the reserve entries rs. */
  ghost predicate Entries(head: bytes, rs: seq<Entry>) {
    |head| == HEADER_SIZE + 16 * |rs| && forall i :: 0 <= i < |rs| ==> EntryAt(head, HEADER_SIZE + 16 * i) == rs[i]
  }

  /** The reserve map is being written and holds rs. */
  ghost predicate Reserving(fdt: Fdt, rs: seq<Entry>)
    reads fdt, fdt.mem
  {
    Unfinished(fdt) && fdt.offDtStrings == 0 && Entries(Head(fdt), rs)
  }

  /** The structure is being written and consists of es. */
  ghost predicate Written(fdt: Fdt, es: seq<Event>)
    reads fdt, fdt.mem
  {
    && Unfinished(fdt) && fdt.offDtStrings == fdt.totalsize
    && EventsAt(Struct(fdt), Strings(fdt), 0, es) && |Struct(fdt)| == 4 * Place(es, |es|)
  }

  // ---------- Create and the reserve map ----------

  /** fdt_create_with_flags */
  method Create(fdt: Fdt, bufsize: int, flags: u32) returns (err: int)
    requires bufsize < INT_MAX && bufsize <= fdt.mem.Length
    modifies fdt, fdt.mem
    ensures err == if bufsize < HEADER_SIZE then -NOSPACE else if flags > NO_NAME_DEDUP then -BADFLAGS else 0
    ensures err != 0 ==> fdt.Hdr() == old(fdt.Hdr()) && fdt.mem[..] == old(fdt.mem[..])
    ensures err == 0 ==> Reserving(fdt, []) && fdt.Hdr() == Header(FDT_SW_MAGIC, bufsize, 48, 0, 48, 17, flags, 0, 0, 0)
  {
    if bufsize < HEADER_SIZE {
      return -NOSPACE;
    }
    if flags > NO_NAME_DEDUP {
      return -BADFLAGS;
    }
    forall k | 0 <= k < bufsize {
      fdt.mem[k] := 0;
    }
    fdt.bootCpuid, fdt.sizeDtStrings, fdt.sizeDtStruct := 0, 0, 0;
    fdt.magic := FDT_SW_MAGIC;
    fdt.version := FDT_LAST_SUPPORTED_VERSION;
    fdt.lastCompVersion := flags;
    fdt.totalsize := bufsize;
    fdt.offMemRsvmap := HEADER_SIZE;
    fdt.offDtStruct := fdt.offMemRsvmap;
    fdt.offDtStrings := 0;
    return 0;
  }

  lemma EntriesSnoc(a: bytes, b: bytes, so: nat, rs: seq<Entry>, e: Entry)
    requires so + 16 <= |a| == |b| && Entries(Block(a, 0, so), rs) && KeptBut(a, b, so, 16) && EntryAt(b, so) == e
    ensures Entries(Block(b, 0, so + 16), rs + [e])
  {
    hide EntryAt;
    var x, y := Block(a, 0, so), Block(b, 0, so + 16);
    forall i | 0 <= i < |rs| + 1 ensures EntryAt(y, HEADER_SIZE + 16 * i) == (rs + [e])[i] {
      if i < |rs| {
        assert Same(x, HEADER_SIZE + 16 * i, y, HEADER_SIZE + 16 * i, 16);
        SameEntry(x, HEADER_SIZE + 16 * i, y, HEADER_SIZE + 16 * i, 16, 0);
      } else {
        assert Same(b, so, y, so, 16);
        SameEntry(b, so, y, so, 16, 0);
      }
    }
  }

  method StoreRsv(mem: array<byte>, p: nat, e: Entry)
    requires p + 16 <= mem.Length
    modifies mem
    ensures EntryAt(mem[..], p) == e && KeptBut(old(mem[..]), mem[..], p, 16)
  {
    hide Dec64;
    Store64(mem, p, e.address);
    ghost var b := mem[..];
    Store64(mem, p + 8, e.size);
    DoubleKept(b, mem[..], p);
  }

  /** The part of fdt_add_reservemap_entry behind the probe. */
  method PutEntry(fdt: Fdt, e: Entry, ghost rs: seq<Entry>) returns (err: int)
    requires Reserving(fdt, rs)
    modifies fdt`offDtStruct, fdt.mem
    ensures err == if old(fdt.offDtStruct) + 16 > fdt.totalsize then -NOSPACE else 0
    ensures err != 0 ==> fdt.Hdr() == old(fdt.Hdr()) && fdt.mem[..] == old(fdt.mem[..])
    ensures err == 0 ==> Reserving(fdt, rs + [e]) && fdt.offDtStruct == old(fdt.offDtStruct) + 16
  {
    hide Entries, EntryAt, KeptBut, Block;
    var offset := fdt.offDtStruct;
    if offset + 16 > fdt.totalsize {
      return -NOSPACE;
    }
    ghost var a := fdt.mem[..];
    StoreRsv(fdt.mem, offset, e);
    EntriesSnoc(a, fdt.mem[..], offset, rs, e);
    fdt.offDtStruct := offset + 16;
    return 0;
  }

  /** fdt_add_reservemap_entry */
  method AddReservemapEntry(fdt: Fdt, address: u64, size: u64, ghost rs: seq<Entry>) returns (err: int)
    requires MemrsvError(fdt.Hdr()) == 0 ==> Reserving(fdt, rs)
    modifies fdt, fdt.mem
    ensures err == if old(MemrsvError(fdt.Hdr())) != 0 then old(MemrsvError(fdt.Hdr()))
                   else if old(fdt.offDtStruct) + 16 > fdt.totalsize then -NOSPACE else 0
    ensures err == -BADSTATE <==>
              old(fdt.magic == FDT_MAGIC || (fdt.magic == FDT_SW_MAGIC && fdt.offDtStrings != 0))
    ensures err == -BADMAGIC <==> old(fdt.magic != FDT_MAGIC && fdt.magic != FDT_SW_MAGIC)
    ensures err != 0 ==> fdt.Hdr() == old(fdt.Hdr()) && fdt.mem[..] == old(fdt.mem[..])
    ensures err == 0 ==>
              (&& Reserving(fdt, rs + [Entry(address, size)])
               && fdt.Hdr() == old(fdt.Hdr()).(offDtStruct := fdt.offDtStruct)
               && fdt.offDtStruct == old(fdt.offDtStruct) + 16)
  {
    err := MemrsvError(fdt.Hdr());
    if err != 0 {
      return;
    }
    err := PutEntry(fdt, Entry(address, size), rs);
  }

  /** fdt_finish_reservemap */
  method FinishReservemap(fdt: Fdt, ghost rs: seq<Entry>) returns (err: int)
    requires MemrsvError(fdt.Hdr()) == 0 ==> Reserving(fdt, rs)
    modifies fdt, fdt.mem
    ensures err == if old(MemrsvError(fdt.Hdr())) != 0 then old(MemrsvError(fdt.Hdr()))
                   else if old(fdt.offDtStruct) + 16 > fdt.totalsize then -NOSPACE else 0
    ensures err == -BADSTATE <==>
              old(fdt.magic == FDT_MAGIC || (fdt.magic == FDT_SW_MAGIC && fdt.offDtStrings != 0))
    ensures err == -BADMAGIC <==> old(fdt.magic != FDT_MAGIC && fdt.magic != FDT_SW_MAGIC)
    ensures err != 0 ==> fdt.Hdr() == old(fdt.Hdr()) && fdt.mem[..] == old(fdt.mem[..])
    ensures err == 0 ==>
              (&& Written(fdt, []) && Entries(Head(fdt), rs + [Entry(0, 0)])
               && fdt.Hdr() == old(fdt.Hdr()).(offDtStruct := fdt.offDtStruct, offDtStrings := fdt.totalsize)
               && fdt.offDtStruct == old(fdt.offDtStruct) + 16)
  {
    hide Block;
    err := AddReservemapEntry(fdt, 0, 0, rs);
    if err != 0 {
      return;
    }
    fdt.offDtStrings := fdt.totalsize;
  }

  // ---------- Room at the end of the structure block ----------

  /** The header fields that the structure phase does not change. */
  function Steady(h: Header): Header {
    h.(sizeDtStruct := 0, sizeDtStrings := 0)
  }

  lemma GrownBlock(m: bytes, off: nat, n: nat, n': nat)
    requires n <= n' && off + n' <= |m|
    ensures Same(Block(m, off, n), 0, Block(m, off, n'), 0, n)
  {
  }

  /** fdt_grab_space_ */
  method GrabSpace(fdt: Fdt, len: nat) returns (offset: nat, ok: bool)
    requires Unfinished(fdt) && fdt.offDtStrings != 0 && len <= INT_MAX
    modifies fdt`sizeDtStruct
    ensures ok <==> old(fdt.offDtStruct + fdt.sizeDtStruct + fdt.sizeDtStrings) + len <= fdt.totalsize
    ensures !ok ==> fdt.sizeDtStruct == old(fdt.sizeDtStruct)
    ensures ok ==> fdt.sizeDtStruct == old(fdt.sizeDtStruct) + len && offset == old(fdt.sizeDtStruct)
    ensures Unfinished(fdt) && Strings(fdt) == old(Strings(fdt)) && Head(fdt) == old(Head(fdt))
    ensures ok ==> |Struct(fdt)| == |old(Struct(fdt))| + len && Same(old(Struct(fdt)), 0, Struct(fdt), 0,
                                                                     |old(Struct(fdt))|)
  {
    hide U32, Block, Same;
    offset := fdt.sizeDtStruct;
    var spaceleft := U32(fdt.totalsize - fdt.offDtStruct - fdt.sizeDtStrings);
    U32Id(fdt.totalsize - fdt.offDtStruct - fdt.sizeDtStrings);
    U32Id(offset + len);
    if U32(offset + len) < offset || U32(offset + len) > spaceleft {
      return offset, false;
    }
    GrownBlock(fdt.mem[..], fdt.offDtStruct, offset, offset + len);
    fdt.sizeDtStruct := offset + len;
    ok := true;
  }

  /** Storing a word in the structure block. */
  method PutWord(fdt: Fdt, y: nat, v: u32)
    requires Unfinished(fdt) && y + 4 <= fdt.sizeDtStruct
    modifies fdt.mem
    ensures Unfinished(fdt) && Strings(fdt) == old(Strings(fdt)) && Head(fdt) == old(Head(fdt))
    ensures |Struct(fdt)| == fdt.sizeDtStruct && Dec32(Struct(fdt), y) == v
    ensures KeptBut(old(Struct(fdt)), Struct(fdt), y, 4)
  {
    hide *;
    Areas(fdt);
    ghost var a := fdt.mem[..];
    ghost var so, ss, ts := fdt.offDtStruct, fdt.sizeDtStruct, fdt.sizeDtStrings;
    ghost var to := fdt.totalsize - ts;
    Store32(fdt.mem, fdt.offDtStruct + y, v);
    ReadWrite.InnerWrite(a, fdt.mem[..], y, 4, so, ss, to, ts);
    ReadWrite.BlockWord(fdt.mem[..], so, ss, y);
    Areas(fdt);
  }

  /** Copying bytes into the structure block. */
  method PutBytes(fdt: Fdt, y: nat, src: bytes)
    requires Unfinished(fdt) && y + |src| <= fdt.sizeDtStruct
    modifies fdt.mem
    ensures Unfinished(fdt) && Strings(fdt) == old(Strings(fdt)) && Head(fdt) == old(Head(fdt))
    ensures |Struct(fdt)| == fdt.sizeDtStruct && Struct(fdt)[y..y + |src|] == src
    ensures KeptBut(old(Struct(fdt)), Struct(fdt), y, |src|)
  {
    hide *;
    Areas(fdt);
    ghost var a := fdt.mem[..];
    ghost var so, ss, ts := fdt.offDtStruct, fdt.sizeDtStruct, fdt.sizeDtStrings;
    ghost var to := fdt.totalsize - ts;
    Memcpy(fdt.mem, fdt.offDtStruct + y, src);
    ReadWrite.InnerWrite(a, fdt.mem[..], y, |src|, so, ss, to, ts);
    ReadWrite.CopiedSlice(fdt.mem[..], so, ss, y, src);
    Areas(fdt);
  }

  // ---------- Nodes ----------

  /** Nothing but the room at the end of the old structure block has changed. */
  ghost predicate Extended(a: bytes, b: bytes, n: nat) {
    |b| == |a| + n && Same(a, 0, b, 0, |a|)
  }

  lemma ExtendedWrite(a: bytes, b: bytes, c: bytes, n: nat, y: nat, m: nat)
    requires Extended(a, b, n) && KeptBut(b, c, y, m) && |a| <= y
    ensures Extended(a, c, n)
  {
    hide Same;
    SameShorter(b, 0, c, 0, y, 0, |a|);
    SameTrans(a, 0, b, 0, c, 0, |a|);
  }

  /** The new tag is event e. */
  lemma EventWritten(a: bytes, b: bytes, strs: bytes, es: seq<Event>, e: Event)
    requires EventsAt(a, strs, 0, es) && |a| == 4 * Place(es, |es|)
    requires Extended(a, b, 4 * Ext(e)) && EventAt(b, strs, false, Place(es, |es|), e)
    ensures EventsAt(b, strs, 0, es + [e]) && |b| == 4 * Place(es + [e], |es + [e]|)
  {
    hide EventsAt, EventAt, Place;
    EventsSnoc(a, b, strs, es, e);
  }

  /** fdt_begin_node, behind the probe. */
  method PutBegin(fdt: Fdt, name: bytes, ghost es: seq<Event>) returns (err: int)
    requires Written(fdt, es) && 0 !in name && |name| <= MAX_LEN
    modifies fdt`sizeDtStruct, fdt.mem
    ensures err ==
              if old(fdt.offDtStruct + fdt.sizeDtStruct + fdt.sizeDtStrings) + 4 * Ext(BeginE(name)) > fdt.totalsize
                   then -NOSPACE else 0
    ensures Written(fdt, if err == 0 then es + [BeginE(name)] else es)
    ensures Head(fdt) == old(Head(fdt)) && Strings(fdt) == old(Strings(fdt))
    ensures err != 0 ==> fdt.Hdr() == old(fdt.Hdr()) && fdt.mem[..] == old(fdt.mem[..])
    ensures err == 0 ==> fdt.sizeDtStruct == old(fdt.sizeDtStruct) + 4 * Ext(BeginE(name))
  {
    hide Struct, Strings, Head, EventsAt, EventAt, Place, Dec32, Same, KeptBut, Extended, Cells;
    ghost var a := Struct(fdt);
    AreaSizes(fdt);
    CellRoom(|name| + 1);
    var offset, ok := GrabSpace(fdt, 4 + Align4(|name| + 1));
    if !ok {
      return -NOSPACE;
    }
    ghost var b := Struct(fdt);
    AreaSizes(fdt);
    PutWord(fdt, offset, FDT_BEGIN_NODE);
    ghost var c := Struct(fdt);
    PutBytes(fdt, offset + 4, name + [0]);
    BeginWritten(a, b, c, Struct(fdt), Strings(fdt), es, name);
    err := 0;
  }

  lemma AreaSizes(fdt: Fdt)
    requires Unfinished(fdt)
    ensures |Struct(fdt)| == fdt.sizeDtStruct && |Strings(fdt)| == fdt.sizeDtStrings && |Head(fdt)| == fdt.offDtStruct
  {
  }

  lemma CellRoom(n: nat)
    ensures n <= Align4(n) <= n + 3
  {
  }

  lemma BeginWritten(a: bytes, b: bytes, c: bytes, d: bytes, strs: bytes, es: seq<Event>, name: bytes)
    requires EventsAt(a, strs, 0, es) && |a| == 4 * Place(es, |es|) && 0 !in name
    requires |b| == |a| + 4 * Ext(BeginE(name)) && Same(a, 0, b, 0, |a|)
    requires KeptBut(b, c, |a|, 4) && |a| + 4 <= |c| && Dec32(c, |a|) == FDT_BEGIN_NODE
    requires KeptBut(c, d, |a| + 4, |name| + 1) && |a| + 5 + |name| <= |d| && d[|a| + 4..|a| + 5 + |name|] == name + [0]
    ensures EventsAt(d, strs, 0, es + [BeginE(name)]) && |d| == 4 * Place(es + [BeginE(name)], |es + [BeginE(name)]|)
  {
    hide EventsAt, Place, Dec32, Same, KeptBut, Cells;
    var n := 4 * Ext(BeginE(name));
    ExtendedWrite(a, b, c, n, |a|, 4);
    ExtendedWrite(a, c, d, n, |a| + 4, |name| + 1);
    KeptWord(c, d, |a| + 4, |name| + 1, |a|);
    EventWritten(a, d, strs, es, BeginE(name));
  }

  /** fdt_begin_node */
  method BeginNode(fdt: Fdt, name: bytes, ghost es: seq<Event>) returns (err: int)
    requires StructError(fdt.Hdr()) == 0 ==> Written(fdt, es)
    requires 0 !in name && |name| <= MAX_LEN
    modifies fdt, fdt.mem
    ensures old(StructError(fdt.Hdr())) != 0 ==> err == old(StructError(fdt.Hdr()))
    ensures err == -BADSTATE <==>
              old(fdt.magic == FDT_MAGIC || (fdt.magic == FDT_SW_MAGIC && fdt.offDtStrings != fdt.totalsize))
    ensures err == -BADMAGIC <==> old(fdt.magic != FDT_MAGIC && fdt.magic != FDT_SW_MAGIC)
    ensures old(StructError(fdt.Hdr())) == 0 ==>
              err ==
                if old(fdt.offDtStruct + fdt.sizeDtStruct + fdt.sizeDtStrings) + 4 * Ext(BeginE(name)) > fdt.totalsize
                     then -NOSPACE else 0
    ensures err != 0 ==> fdt.Hdr() == old(fdt.Hdr()) && fdt.mem[..] == old(fdt.mem[..])
    ensures err == 0 ==>
              (&& Written(fdt, es + [BeginE(name)]) && Steady(fdt.Hdr()) == old(Steady(fdt.Hdr()))
               && Head(fdt) == old(Head(fdt)) && Strings(fdt) == old(Strings(fdt))
               && fdt.sizeDtStrings == old(fdt.sizeDtStrings)
               && fdt.sizeDtStruct == old(fdt.sizeDtStruct) + 4 * Ext(BeginE(name)))
  {
    hide EventsAt, Place, Block, Ext;
    err := StructError(fdt.Hdr());
    if err != 0 {
      return;
    }
    err := PutBegin(fdt, name, es);
  }

  /** fdt_end_node, behind the probe. */
  method PutEnd(fdt: Fdt, ghost es: seq<Event>) returns (err: int)
    requires Written(fdt, es)
    modifies fdt`sizeDtStruct, fdt.mem
    ensures err ==
              if old(fdt.offDtStruct + fdt.sizeDtStruct + fdt.sizeDtStrings) + 4 > fdt.totalsize then -NOSPACE else 0
    ensures Written(fdt, if err == 0 then es + [EndE] else es)
    ensures Head(fdt) == old(Head(fdt)) && Strings(fdt) == old(Strings(fdt))
    ensures err != 0 ==> fdt.Hdr() == old(fdt.Hdr()) && fdt.mem[..] == old(fdt.mem[..])
    ensures err == 0 ==> fdt.sizeDtStruct == old(fdt.sizeDtStruct) + 4
  {
    hide Struct, Strings, Head, EventsAt, EventAt, Place, Dec32, Same, KeptBut, Extended;
    ghost var a := Struct(fdt);
    AreaSizes(fdt);
    var offset, ok := GrabSpace(fdt, 4);
    if !ok {
      return -NOSPACE;
    }
    ghost var b := Struct(fdt);
    AreaSizes(fdt);
    PutWord(fdt, offset, FDT_END_NODE);
    EndWritten(a, b, Struct(fdt), Strings(fdt), es);
    err := 0;
  }

  lemma EndWritten(a: bytes, b: bytes, c: bytes, strs: bytes, es: seq<Event>)
    requires EventsAt(a, strs, 0, es) && |a| == 4 * Place(es, |es|)
    requires |b| == |a| + 4 && Same(a, 0, b, 0, |a|)
    requires KeptBut(b, c, |a|, 4) && |a| + 4 <= |c| && Dec32(c, |a|) == FDT_END_NODE
    ensures EventsAt(c, strs, 0, es + [EndE]) && |c| == 4 * Place(es + [EndE], |es + [EndE]|)
  {
    hide EventsAt, Place, Dec32, Same, KeptBut;
    ExtendedWrite(a, b, c, 4, |a|, 4);
    EventWritten(a, c, strs, es, EndE);
  }

  /** fdt_end_node. It does not ask whether a node is open. */
  method EndNode(fdt: Fdt, ghost es: seq<Event>) returns (err: int)
    requires StructError(fdt.Hdr()) == 0 ==> Written(fdt, es)
    modifies fdt, fdt.mem
    ensures old(StructError(fdt.Hdr())) != 0 ==> err == old(StructError(fdt.Hdr()))
    ensures err == -BADSTATE <==>
              old(fdt.magic == FDT_MAGIC || (fdt.magic == FDT_SW_MAGIC && fdt.offDtStrings != fdt.totalsize))
    ensures err == -BADMAGIC <==> old(fdt.magic != FDT_MAGIC && fdt.magic != FDT_SW_MAGIC)
    ensures old(StructError(fdt.Hdr())) == 0 ==>
              err ==
                if old(fdt.offDtStruct + fdt.sizeDtStruct + fdt.sizeDtStrings) + 4 > fdt.totalsize then -NOSPACE else 0
    ensures err != 0 ==> fdt.Hdr() == old(fdt.Hdr()) && fdt.mem[..] == old(fdt.mem[..])
    ensures err == 0 ==>
              (&& Written(fdt, es + [EndE]) && Steady(fdt.Hdr()) == old(Steady(fdt.Hdr()))
               && Head(fdt) == old(Head(fdt)) && Strings(fdt) == old(Strings(fdt))
               && fdt.sizeDtStrings == old(fdt.sizeDtStrings)
               && fdt.sizeDtStruct == old(fdt.sizeDtStruct) + 4)
  {
    hide EventsAt, Place, Block;
    err := StructError(fdt.Hdr());
    if err != 0 {
      return;
    }
    err := PutEnd(fdt, es);
  }

  // ---------- The string table ----------

  /** The room test of fdt_add_string_: an unsigned subtraction. */
  predicate StringRoom(totalsize: u32, structTop: u32, offset: u32) {
    U32(totalsize - offset) >= structTop
  }

  /** The test is right exactly when the strings alone would fit in the buffer. */
  lemma StringRoomExact(totalsize: u32, structTop: u32, offset: u32)
    requires structTop <= totalsize <= INT_MAX && 0 < offset <= INT_MAX
    ensures (StringRoom(totalsize, structTop, offset) <==> structTop + offset <= totalsize) <==> offset <= totalsize
  {
    if offset <= totalsize {
      U32Id(totalsize - offset);
    } else {
      U32Id(totalsize - offset + TWO_32);
      assert U32(totalsize - offset) == totalsize - offset + TWO_32;
    }
  }

  /** A string that is longer than the whole buffer passes the test. */
  lemma StringRoomWraps()
    ensures exists offset: u32 :: offset > 64 && StringRoom(64, 64, offset)
  {
    assert StringRoom(64, 64, 65);
  }

  lemma GrownStrings(a: bytes, b: bytes, so: nat, ss: nat, total: nat, size: nat, t: bytes, size': nat)
    requires |a| == |b| && size' == size + |t| && so + ss + size' <= total <= |a|
    requires forall k {:trigger b[k]} :: 0 <= k < |b| && !(total - size' <= k < total - size) ==> b[k] == a[k]
    requires forall k {:trigger b[k]} :: total - size' <= k < total - size ==> b[k] == t[k - (total - size')]
    ensures Block(b, 0, so) == Block(a, 0, so) && Block(b, so, ss) == Block(a, so, ss)
    ensures Block(b, total - size', size') == t + Block(a, total - size, size)
  {
  }

  /** fdt_add_string_: the offset of the new string from the end of the buffer, or 0. */
  method AddString(fdt: Fdt, s: bytes) returns (r: int)
    requires Unfinished(fdt) && fdt.offDtStrings != 0 && 0 !in s && |s| <= MAX_LEN
    requires fdt.sizeDtStrings + |s| + 1 <= fdt.totalsize
    modifies fdt`sizeDtStrings, fdt.mem
    ensures Unfinished(fdt) && Struct(fdt) == old(Struct(fdt)) && Head(fdt) == old(Head(fdt))
    ensures r == 0 <==> old(fdt.offDtStruct + fdt.sizeDtStruct + fdt.sizeDtStrings) + |s| + 1 > fdt.totalsize
    ensures r == 0 ==>
              fdt.sizeDtStrings == old(fdt.sizeDtStrings) && Strings(fdt) == old(Strings(fdt)) &&
              fdt.mem[..] == old(fdt.mem[..])
    ensures r != 0 ==>
              (&& fdt.sizeDtStrings == old(fdt.sizeDtStrings) + |s| + 1 && r + fdt.sizeDtStrings == 0
               && Strings(fdt) == (s + [0]) + old(Strings(fdt)))
  {
    hide U32, Block, StringRoom;
    var strtab, strtabsize := fdt.totalsize, fdt.sizeDtStrings;
    var len := |s| + 1;
    var offset := strtabsize + len;
    U32Id(fdt.offDtStruct + fdt.sizeDtStruct);
    var structTop := U32(fdt.offDtStruct + fdt.sizeDtStruct);
    StringRoomExact(fdt.totalsize, structTop, offset);
    if !StringRoom(fdt.totalsize, structTop, offset) {
      return 0;
    }
    ghost var a := fdt.mem[..];
    Memcpy(fdt.mem, strtab - offset, s + [0]);
    fdt.sizeDtStrings := strtabsize + len;
    GrownStrings(a, fdt.mem[..], fdt.offDtStruct, fdt.sizeDtStruct, fdt.totalsize, strtabsize, s + [0], offset);
    r := -offset;
  }

  /** The string table holds s at the negative offset r from its end. */
  ghost predicate EndRef(strs: bytes, r: int, s: bytes) {
    -|strs| <= r < 0 && Walk.StrAt(strs, |strs| + r) == Walk.Some(s)
  }

  lemma AddedRef(strs: bytes, s: bytes)
    requires 0 !in s
    ensures EndRef((s + [0]) + strs, -|strs| - |s| - 1, s)
  {
    var t := (s + [0]) + strs;
    assert t[0..|s|] == s;
    ReadWrite.StrAtMatch(t, 0, s);
  }

  /** The strings after s has been found or added. */
  function More(added: bool, s: bytes): bytes {
    if added then s + [0] else []
  }

  /** Whether a name takes up room in the strings. */
  ghost predicate IsNew(flags: u32, strs: bytes, s: bytes) {
    flags == NO_NAME_DEDUP || ReadWrite.Absent(strs, s)
  }

  /** The strings with s in them, found or added. */
  ghost function WithName(flags: u32, strs: bytes, s: bytes): bytes {
    More(IsNew(flags, strs, s), s) + strs
  }

  /** fdt_find_add_string_, or fdt_add_string_ alone when names are not to be shared. */
  method FindAddString(fdt: Fdt, s: bytes) returns (r: int, added: bool)
    requires Unfinished(fdt) && fdt.offDtStrings != 0 && 0 !in s && |s| <= MAX_LEN
    requires IsNew(fdt.lastCompVersion, Strings(fdt), s) ==> fdt.sizeDtStrings + |s| + 1 <= fdt.totalsize
    modifies fdt`sizeDtStrings, fdt.mem
    ensures Unfinished(fdt) && Struct(fdt) == old(Struct(fdt)) && Head(fdt) == old(Head(fdt))
    ensures added <==> IsNew(fdt.lastCompVersion, old(Strings(fdt)), s)
    ensures r == 0 <==> added && old(fdt.offDtStruct + fdt.sizeDtStruct + fdt.sizeDtStrings) + |s| + 1 > fdt.totalsize
    ensures r == 0 ==>
              fdt.sizeDtStrings == old(fdt.sizeDtStrings) && Strings(fdt) == old(Strings(fdt)) &&
              fdt.mem[..] == old(fdt.mem[..])
    ensures r != 0 ==>
              (&& Strings(fdt) == WithName(fdt.lastCompVersion, old(Strings(fdt)), s) && EndRef(Strings(fdt), r, s)
               && fdt.sizeDtStrings == old(fdt.sizeDtStrings) + |More(added, s)|)
  {
    hide Block, Walk.StrAt, ReadWrite.HoldsAt, ReadWrite.Absent;
    ghost var strs := Strings(fdt);
    AreaSizes(fdt);
    added := true;
    if fdt.lastCompVersion != NO_NAME_DEDUP {
      var p := ReadWrite.FindStringLen(fdt.mem, fdt.totalsize - fdt.sizeDtStrings, fdt.sizeDtStrings, s);
      if p >= 0 {
        ReadWrite.HoldsIs(strs, p, s);
        ReadWrite.HeldNotAbsent(strs, p, s);
        assert [] + strs == strs;
        return p - fdt.sizeDtStrings, false;
      }
    }
    r := AddString(fdt, s);
    AddedRef(strs, s);
  }

  // ---------- Properties ----------

  lemma RefWord(strs: bytes, r: int, s: bytes)
    requires EndRef(strs, r, s) && |strs| <= INT_MAX
    ensures NameRef(strs, false, U32(r), s)
  {
    assert U32(r) == r + TWO_32;
  }

  /** The room that a property takes at most: its tag, and its name if that is not shared. */
  ghost function PropSize(fdt: Fdt, name: bytes, len: nat): nat
    requires Unfinished(fdt)
    reads fdt, fdt.mem
  {
    12 + Align4(len) + if IsNew(fdt.lastCompVersion, Strings(fdt), name) then |name| + 1 else 0
  }

  lemma DroppedString(m: bytes, total: nat, size: nat, strs: bytes, more: bytes)
    requires size + |more| <= total <= |m| && Block(m, total - size - |more|, size + |more|) == more + strs
    requires |strs| == size
    ensures Block(m, total - size, size) == strs
  {
    var b := Block(m, total - size - |more|, size + |more|);
    assert Block(m, total - size, size) == b[|more|..];
  }

  /** fdt_del_last_string_, after more has been added in front. */
  method DelLastString(fdt: Fdt, s: bytes, ghost strs: bytes)
    requires Unfinished(fdt) && fdt.offDtStrings != 0 && |s| <= MAX_LEN && Strings(fdt) == (s + [0]) + strs
    modifies fdt`sizeDtStrings
    ensures Unfinished(fdt) && Strings(fdt) == strs && Struct(fdt) == old(Struct(fdt)) && Head(fdt) == old(Head(fdt))
    ensures fdt.sizeDtStrings == old(fdt.sizeDtStrings) - (|s| + 1)
  {
    hide Block, U32;
    AreaSizes(fdt);
    var len := |s| + 1;
    U32Id(fdt.sizeDtStrings - len);
    DroppedString(fdt.mem[..], fdt.totalsize, fdt.sizeDtStrings - len, strs, s + [0]);
    fdt.sizeDtStrings := U32(fdt.sizeDtStrings - len);
  }

  /** The three words of a new property, the value still to be copied. */
  ghost predicate Placed(a: bytes, b: bytes, strs: bytes, name: bytes, len: nat) {
    && Extended(a, b, 12 + Align4(len)) && 0 <= |a| && |a| + 12 <= |b|
    && Dec32(b, |a|) == FDT_PROP && Dec32(b, |a| + 4) == len && NameRef(strs, false, Dec32(b, |a| + 8), name)
  }

  lemma PropPlaced(a: bytes, b: bytes, c: bytes, d: bytes, e: bytes, strs: bytes, r: int, name: bytes, len: nat)
    requires |b| == |a| + 12 + Align4(len) && Same(a, 0, b, 0, |a|) && EndRef(strs, r, name) && |strs| <= INT_MAX
    requires KeptBut(b, c, |a|, 4) && |a| + 12 <= |c| && Dec32(c, |a|) == FDT_PROP
    requires KeptBut(c, d, |a| + 8, 4) && |a| + 12 <= |d| && Dec32(d, |a| + 8) == U32(r)
    requires KeptBut(d, e, |a| + 4, 4) && |a| + 12 <= |e| && Dec32(e, |a| + 4) == len
    ensures Placed(a, e, strs, name, len)
  {
    hide Dec32, Same, KeptBut, Cells, NameRef, U32, EndRef;
    var n := 12 + Align4(len);
    ExtendedWrite(a, b, c, n, |a|, 4);
    ExtendedWrite(a, c, d, n, |a| + 8, 4);
    ExtendedWrite(a, d, e, n, |a| + 4, 4);
    KeptWord(c, d, |a| + 8, 4, |a|);
    KeptWord(d, e, |a| + 4, 4, |a|);
    KeptWord(d, e, |a| + 4, 4, |a| + 8);
    RefWord(strs, r, name);
  }

  /**
   * fdt_property_placeholder, behind the probe. When there is no room for the tag, a name that
   * has just been added is taken off again.
   */
  method PutPlaceholder(fdt: Fdt, name: bytes, len: nat, ghost es: seq<Event>) returns (err: int, ptr: nat)
    requires Written(fdt, es) && 0 !in name && |name| <= MAX_LEN && len <= MAX_LEN
    requires IsNew(fdt.lastCompVersion, Strings(fdt), name) ==> fdt.sizeDtStrings + |name| + 1 <= fdt.totalsize
    modifies fdt`sizeDtStruct, fdt`sizeDtStrings, fdt.mem
    ensures err == if old(fdt.offDtStruct + fdt.sizeDtStruct + fdt.sizeDtStrings
                          + PropSize(fdt, name, len)) > fdt.totalsize
                   then -NOSPACE else 0
    ensures Unfinished(fdt) && Head(fdt) == old(Head(fdt))
    ensures err != 0 ==>
              fdt.Hdr() == old(fdt.Hdr()) && Struct(fdt) == old(Struct(fdt)) && Strings(fdt) == old(Strings(fdt))
    ensures err == 0 ==>
              (&& Placed(old(Struct(fdt)), Struct(fdt), Strings(fdt), name, len) && ptr == old(fdt.sizeDtStruct) + 12
               && fdt.sizeDtStruct == old(fdt.sizeDtStruct) + 12 + Align4(len)
               && fdt.sizeDtStruct + fdt.sizeDtStrings ==
                  old(fdt.sizeDtStruct + fdt.sizeDtStrings + PropSize(fdt, name, len)))
    ensures err == 0 ==> Strings(fdt) == WithName(fdt.lastCompVersion, old(Strings(fdt)), name)
  {
    hide Struct, Strings, Head, EventsAt, EventAt, Place, Dec32, Same, KeptBut, Extended, Placed, EndRef, U32, Cells,
         IsNew;
    ghost var a, strs := Struct(fdt), Strings(fdt);
    ptr := 0;
    AreaSizes(fdt);
    CellRoom(len);
    var nameoff, added := FindAddString(fdt, name);
    if nameoff == 0 {
      return -NOSPACE, 0;
    }
    var offset, ok := GrabSpace(fdt, 12 + Align4(len));
    if !ok {
      if added {
        DelLastString(fdt, name, strs);
      }
      assert [] + strs == strs;
      return -NOSPACE, 0;
    }
    ghost var b := Struct(fdt);
    AreaSizes(fdt);
    PutWord(fdt, offset, FDT_PROP);
    ghost var c := Struct(fdt);
    PutWord(fdt, offset + 8, U32(nameoff));
    ghost var d := Struct(fdt);
    PutWord(fdt, offset + 4, len);
    AreaSizes(fdt);
    PropPlaced(a, b, c, d, Struct(fdt), Strings(fdt), nameoff, name, len);
    err, ptr := 0, offset + 12;
  }

  lemma PropWrittenEvent(a: bytes, b: bytes, c: bytes, strs: bytes, was: bytes, more: bytes, es: seq<Event>,
                         name: bytes, val: bytes)
    requires EventsAt(a, was, 0, es) && |a| == 4 * Place(es, |es|) && strs == more + was && |val| <= INT_MAX
    requires Placed(a, b, strs, name, |val|)
    requires KeptBut(b, c, |a| + 12, |val|) && |a| + 12 + |val| <= |c| && c[|a| + 12..|a| + 12 + |val|] == val
    ensures EventsAt(c, strs, 0, es + [PropE(name, val)])
    ensures |c| == 4 * Place(es + [PropE(name, val)], |es + [PropE(name, val)]|)
  {
    hide EventsAt, Place, Dec32, Same, KeptBut, Cells, NameRef;
    EventsGrow(a, was, more, es);
    var n := 12 + Align4(|val|);
    ExtendedWrite(a, b, c, n, |a| + 12, |val|);
    KeptWord(b, c, |a| + 12, |val|, |a|);
    KeptWord(b, c, |a| + 12, |val|, |a| + 4);
    KeptWord(b, c, |a| + 12, |val|, |a| + 8);
    EventWritten(a, c, strs, es, PropE(name, val));
  }

  /** fdt_property, behind the probe. */
  method PutProperty(fdt: Fdt, name: bytes, val: bytes, ghost es: seq<Event>) returns (err: int)
    requires Written(fdt, es) && 0 !in name && |name| <= MAX_LEN && |val| <= MAX_LEN
    requires IsNew(fdt.lastCompVersion, Strings(fdt), name) ==> fdt.sizeDtStrings + |name| + 1 <= fdt.totalsize
    modifies fdt`sizeDtStruct, fdt`sizeDtStrings, fdt.mem
    ensures err == if old(fdt.offDtStruct + fdt.sizeDtStruct + fdt.sizeDtStrings
                          + PropSize(fdt, name, |val|)) > fdt.totalsize
                   then -NOSPACE else 0
    ensures Written(fdt, if err == 0 then es + [PropE(name, val)] else es) && Head(fdt) == old(Head(fdt))
    ensures err != 0 ==>
              fdt.Hdr() == old(fdt.Hdr()) && Struct(fdt) == old(Struct(fdt)) && Strings(fdt) == old(Strings(fdt))
    ensures err == 0 ==>
              fdt.sizeDtStruct + fdt.sizeDtStrings ==
                  old(fdt.sizeDtStruct + fdt.sizeDtStrings + PropSize(fdt, name, |val|))
    ensures err == 0 ==> fdt.sizeDtStruct == old(fdt.sizeDtStruct) + 12 + Align4(|val|)
    ensures err == 0 ==> Strings(fdt) == WithName(fdt.lastCompVersion, old(Strings(fdt)), name)
  {
    hide Struct, Strings, Head, EventsAt, EventAt, Place, Dec32, KeptBut, Placed, Cells, More, IsNew;
    ghost var a, was := Struct(fdt), Strings(fdt);
    AreaSizes(fdt);
    CellRoom(|val|);
    var ptr;
    err, ptr := PutPlaceholder(fdt, name, |val|, es);
    if err != 0 {
      return;
    }
    ghost var b := Struct(fdt);
    AreaSizes(fdt);
    PutBytes(fdt, ptr, val);
    PropWrittenEvent(a, b, Struct(fdt), Strings(fdt), was, More(IsNew(fdt.lastCompVersion, was, name), name), es, name,
                     val);
  }

  /**
   * fdt_property. If it fails, the structure, the strings and all sizes are as before, whether or not
   * the name had just been added. The caller has to see to it that the strings with a new name alone would fit in the
   * buffer.
   */
  method Property(fdt: Fdt, name: bytes, val: bytes, ghost es: seq<Event>) returns (err: int)
    requires StructError(fdt.Hdr()) == 0 ==>
               && Written(fdt, es)
               && (IsNew(fdt.lastCompVersion, Strings(fdt), name) ==> fdt.sizeDtStrings + |name| + 1 <= fdt.totalsize)
    requires 0 !in name && |name| <= MAX_LEN && |val| <= MAX_LEN
    modifies fdt, fdt.mem
    ensures old(StructError(fdt.Hdr())) != 0 ==>
              (err == old(StructError(fdt.Hdr())) && fdt.Hdr() == old(fdt.Hdr()) && fdt.mem[..] == old(fdt.mem[..]))
    ensures err == -BADSTATE <==>
              old(fdt.magic == FDT_MAGIC || (fdt.magic == FDT_SW_MAGIC && fdt.offDtStrings != fdt.totalsize))
    ensures err == -BADMAGIC <==> old(fdt.magic != FDT_MAGIC && fdt.magic != FDT_SW_MAGIC)
    ensures old(StructError(fdt.Hdr())) == 0 ==>
              err == if old(fdt.offDtStruct + fdt.sizeDtStruct + fdt.sizeDtStrings
                          + PropSize(fdt, name, |val|)) > fdt.totalsize
                     then -NOSPACE else 0
    ensures old(StructError(fdt.Hdr())) == 0 && err != 0 ==>
              (&& Written(fdt, es) && Head(fdt) == old(Head(fdt))
               && fdt.Hdr() == old(fdt.Hdr()) && Struct(fdt) == old(Struct(fdt)) && Strings(fdt) == old(Strings(fdt)))
    ensures err == 0 ==>
              (&& Written(fdt, es + [PropE(name, val)]) && Head(fdt) == old(Head(fdt))
               && Steady(fdt.Hdr()) == old(Steady(fdt.Hdr()))
               && Strings(fdt) == WithName(old(fdt.lastCompVersion), old(Strings(fdt)), name)
               && fdt.sizeDtStruct + fdt.sizeDtStrings ==
                  old(fdt.sizeDtStruct + fdt.sizeDtStrings + PropSize(fdt, name, |val|))
               && fdt.sizeDtStruct == old(fdt.sizeDtStruct) + 12 + Align4(|val|))
  {
    hide EventsAt, Place, Block, Cells, IsNew, WithName;
    err := StructError(fdt.Hdr());
    if err != 0 {
      return;
    }
    err := PutProperty(fdt, name, val, es);
  }

  // ---------- fdt_finish ----------

  /** The events es and an end tag; the first j events have been given their final name offsets. */
  ghost predicate Ended(st: bytes, strs: bytes, j: int, es: seq<Event>) {
    EventsAt(st, strs, j, es) && |st| == 4 * Place(es, |es|) + 4 && Dec32(st, |st| - 4) == FDT_END
  }

  lemma EventsExtended(a: bytes, b: bytes, strs: bytes, es: seq<Event>, n: nat)
    requires EventsAt(a, strs, 0, es) && |a| == 4 * Place(es, |es|) && Extended(a, b, n)
    ensures EventsAt(b, strs, 0, es)
  {
    hide EventAt, Same, Place;
    forall i | 0 <= i < |es| ensures EventAt(b, strs, i < 0, Place(es, i), es[i]) {
      assert EventAt(a, strs, i < 0, Place(es, i), es[i]);
      EventKept(a, b, strs, es, i);
    }
  }

  lemma EndPut(a: bytes, b: bytes, c: bytes, strs: bytes, es: seq<Event>)
    requires EventsAt(a, strs, 0, es) && |a| == 4 * Place(es, |es|) && |b| == |a| + 4 && Same(a, 0, b, 0, |a|)
    requires KeptBut(b, c, |a|, 4) && |a| + 4 <= |c| && Dec32(c, |a|) == FDT_END
    ensures Ended(c, strs, 0, es)
  {
    hide EventsAt, Place, Dec32, Same, KeptBut;
    ExtendedWrite(a, b, c, 4, |a|, 4);
    EventsExtended(a, c, strs, es, 4);
  }

  /** An event does not care about bytes outside it. */
  lemma EventOutside(a: bytes, b: bytes, strs: bytes, fixed: bool, p: nat, e: Event, y: nat, n: nat)
    requires EventAt(a, strs, fixed, p, e) && KeptBut(a, b, y, n) && (4 * p + 4 * Ext(e) <= y || y + n <= 4 * p)
    ensures EventAt(b, strs, fixed, p, e)
  {
    hide Same, Ext, Dec32, NameRef, PropWritten;
    ReadWrite.KeptRange(a, b, y, n, 4 * p, 4 * Ext(e));
    EventMove(a, b, strs, fixed, p, e);
  }

  /** An event other than a property is the same before and after fdt_finish. */
  lemma EventSteady(st: bytes, strs: bytes, p: nat, e: Event)
    requires EventAt(st, strs, false, p, e) && !e.PropE?
    ensures EventAt(st, strs, true, p, e)
  {
  }

  lemma EventFixed(a: bytes, b: bytes, strs: bytes, p: nat, e: Event)
    requires EventAt(a, strs, false, p, e) && e.PropE? && |strs| <= INT_MAX && KeptBut(a, b, 4 * p + 8, 4)
    requires 4 * p + 12 <= |a| && 4 * p + 12 <= |b| && Dec32(b, 4 * p + 8) == U32(Dec32(a, 4 * p + 8) + |strs|)
    ensures EventAt(b, strs, true, p, e)
  {
    hide Dec32, Same, NameRef, Cells, U32;
    var o, n := 4 * p, |e.value|;
    KeptWord(a, b, o + 8, 4, o);
    KeptWord(a, b, o + 8, 4, o + 4);
    ReadWrite.KeptRange(a, b, o + 8, 4, o + 12, n);
    SameSlices(a, o + 12, b, o + 12, n);
    NameRefFixed(strs, Dec32(a, o + 8), e.name);
    KeptSizes(a, b, o + 8, 4);
  }

  lemma KeptSizes(a: bytes, b: bytes, y: nat, n: nat)
    requires KeptBut(a, b, y, n)
    ensures |a| == |b| && y + n <= |a|
  {
  }

  /** Correcting the name offset of event j, if it is a property. */
  lemma StepFixed(a: bytes, b: bytes, strs: bytes, j: nat, es: seq<Event>)
    requires j < |es| && EventsAt(a, strs, j, es) && |strs| <= INT_MAX
    requires if es[j].PropE? then
        var y := 4 * Place(es, j) + 8;
        KeptBut(a, b, y, 4) && y + 4 <= |a| && y + 4 <= |b| && Dec32(b, y) == U32(Dec32(a, y) + |strs|)
      else a == b
    ensures EventsAt(b, strs, j + 1, es)
  {
    hide EventAt, KeptBut, Dec32, U32, Place;
    forall i | 0 <= i < |es| ensures EventAt(b, strs, i < j + 1, Place(es, i), es[i]) {
      assert EventAt(a, strs, i < j, Place(es, i), es[i]);
      StepEvent(a, b, strs, j, es, i);
    }
  }

  lemma StepEvent(a: bytes, b: bytes, strs: bytes, j: nat, es: seq<Event>, i: nat)
    requires j < |es| && i < |es| && EventAt(a, strs, i < j, Place(es, i), es[i]) && |strs| <= INT_MAX
    requires if es[j].PropE? then
        var y := 4 * Place(es, j) + 8;
        KeptBut(a, b, y, 4) && y + 4 <= |a| && y + 4 <= |b| && Dec32(b, y) == U32(Dec32(a, y) + |strs|)
      else a == b
    ensures EventAt(b, strs, i < j + 1, Place(es, i), es[i])
  {
    hide EventAt, KeptBut, Dec32, U32, Place, Ext;
    PlaceNext(es, i, j);
    PropExt(es[j]);
    if es[j].PropE? {
      if i == j {
        EventFixed(a, b, strs, Place(es, i), es[i]);
      } else {
        EventOutside(a, b, strs, i < j, Place(es, i), es[i], 4 * Place(es, j) + 8, 4);
      }
    } else if i == j {
      EventSteady(a, strs, Place(es, i), es[i]);
    }
  }

  lemma PropExt(e: Event)
    ensures e.PropE? ==> Ext(e) >= 3
  {
  }

  lemma PlaceNext(es: seq<Event>, i: nat, j: nat)
    requires i < |es| && j < |es|
    ensures i < j ==> Place(es, i) + Ext(es[i]) <= Place(es, j)
    ensures j < i ==> Place(es, j) + Ext(es[j]) <= Place(es, i)
  {
    hide Place, Ext;
    PlaceStep(es, i);
    PlaceStep(es, j);
    if i < j {
      PlaceGrows(es, i + 1, j);
    } else if j < i {
      PlaceGrows(es, j + 1, i);
    }
  }

  /** Storing a name offset while the strings are already in their final place. */
  method FixName(fdt: Fdt, y: nat, v: u32)
    requires fdt.StructIn() && y + 4 <= fdt.sizeDtStruct
    requires fdt.offDtStruct + fdt.sizeDtStruct + fdt.sizeDtStrings <= fdt.mem.Length
    modifies fdt.mem
    ensures KeptBut(old(fdt.St()), fdt.St(), y, 4) && Dec32(fdt.St(), y) == v
    ensures var to := fdt.offDtStruct + fdt.sizeDtStruct;
      Block(fdt.mem[..], to, fdt.sizeDtStrings) == old(Block(fdt.mem[..], to, fdt.sizeDtStrings))
    ensures Block(fdt.mem[..], 0, fdt.offDtStruct) == old(Block(fdt.mem[..], 0, fdt.offDtStruct))
  {
    ghost var so, ss, ts := fdt.offDtStruct, fdt.sizeDtStruct, fdt.sizeDtStrings;
    hide Block, KeptBut, Dec32, Fdt.St, Fdt.StructIn;
    StBlock(fdt);
    ghost var a := fdt.mem[..];
    Store32(fdt.mem, fdt.offDtStruct + y, v);
    ReadWrite.InnerWrite(a, fdt.mem[..], y, 4, so, ss, so + ss, ts);
    ReadWrite.BlockWord(fdt.mem[..], so, ss, y);
    StBlock(fdt);
  }

  lemma StBlock(fdt: Fdt)
    requires fdt.StructIn()
    ensures fdt.offDtStruct + fdt.sizeDtStruct <= fdt.totalsize <= |fdt.mem[..]|
    ensures fdt.St() == Block(fdt.mem[..], fdt.offDtStruct, fdt.sizeDtStruct)
  {
  }

  /** The walk of fdt_finish: every name offset is made to count from the start of the strings. */
  method FixNames(fdt: Fdt, ghost strs: bytes, ghost es: seq<Event>) returns (err: int)
    requires fdt.StructIn() && Ended(fdt.St(), strs, 0, es) && |strs| == fdt.sizeDtStrings <= INT_MAX
    requires fdt.offDtStruct + fdt.sizeDtStruct + fdt.sizeDtStrings <= fdt.mem.Length
    modifies fdt.mem
    ensures err == 0 && Ended(fdt.St(), strs, |es|, es)
    ensures var to := fdt.offDtStruct + fdt.sizeDtStruct;
      Block(fdt.mem[..], to, fdt.sizeDtStrings) == old(Block(fdt.mem[..], to, fdt.sizeDtStrings))
    ensures Block(fdt.mem[..], 0, fdt.offDtStruct) == old(Block(fdt.mem[..], 0, fdt.offDtStruct))
  {
    hide Block, KeptBut, Dec32, Fdt.St, Fdt.StructIn, Place, EventsAt, EventAt, Tags.NextTag, U32, Ext;
    var offset := 0;
    ghost var j := 0;
    fdt.StSize();
    PlaceStart(es);
    var tag, nextoffset := FdtCore.NextTag(fdt, offset);
    TagOfEvent(fdt.St(), strs, es, j);
    while tag != FDT_END
      invariant fdt.StructIn() && j <= |es| && offset == 4 * Place(es, j) && 0 <= offset <= INT_MAX
      invariant Ended(fdt.St(), strs, j, es)
      invariant (tag, nextoffset) == Tags.NextTag(fdt.St(), offset)
      invariant TagOk(tag, nextoffset, es, j)
      invariant var to := fdt.offDtStruct + fdt.sizeDtStruct;
        Block(fdt.mem[..], to, fdt.sizeDtStrings) == old(Block(fdt.mem[..], to, fdt.sizeDtStrings))
      invariant Block(fdt.mem[..], 0, fdt.offDtStruct) == old(Block(fdt.mem[..], 0, fdt.offDtStruct))
      decreases |es| - j
    {
      ghost var a := fdt.St();
      if tag == FDT_PROP {
        PropRoom(a, strs, es, j);
        fdt.StSize();
        var nameoff := FdtCore.StWord(fdt, offset + 8);
        fdt.StSize();
        FixName(fdt, offset + 8, U32(nameoff + fdt.sizeDtStrings));
      }
      fdt.StSize();
      StepFixed(a, fdt.St(), strs, j, es);
      EndKept(a, fdt.St(), strs, es, j);
      offset := nextoffset;
      j := j + 1;
      OffsetBound(fdt.St(), es, j);
      tag, nextoffset := FdtCore.NextTag(fdt, offset);
      TagOfEvent(fdt.St(), strs, es, j);
    }
    if nextoffset < 0 {
      return nextoffset;
    }
    err := 0;
  }

  /** What fdt_next_tag finds at event j, or behind the last one. */
  ghost predicate TagOk(tag: u32, nextoffset: int, es: seq<Event>, j: nat) {
    if j < |es| then
      && nextoffset == 4 * Place(es, j + 1)
      && tag == match es[j] case BeginE(_) => FDT_BEGIN_NODE case PropE(_, _) => FDT_PROP case EndE => FDT_END_NODE
    else tag == FDT_END && nextoffset >= 0
  }

  lemma PlaceStart(es: seq<Event>)
    ensures Place(es, 0) == 0
  {
  }

  lemma TagOfEvent(st: bytes, strs: bytes, es: seq<Event>, j: nat)
    requires j <= |es| && Ended(st, strs, j, es)
    ensures var (tag, next) := Tags.NextTag(st, 4 * Place(es, j)); TagOk(tag, next, es, j)
  {
    if j < |es| {
      assert EventAt(st, strs, j < j, Place(es, j), es[j]);
      assert Place(es, j + 1) == Place(es, j) + Ext(es[j]);
      hide EventAt, Tags.NextTag, Place, Ext;
      NextTagEvent(st, strs, false, Place(es, j), es[j]);
    } else {
      NextTagWord(st, Place(es, j), FDT_END);
    }
  }

  lemma PropRoom(st: bytes, strs: bytes, es: seq<Event>, j: nat)
    requires j < |es| && Ended(st, strs, j, es) && es[j].PropE?
    ensures 4 * Place(es, j) + 12 <= |st|
  {
    assert EventAt(st, strs, j < j, Place(es, j), es[j]);
  }

  lemma EndKept(a: bytes, b: bytes, strs: bytes, es: seq<Event>, j: nat)
    requires j < |es| && Ended(a, strs, j, es) && EventsAt(b, strs, j + 1, es)
    requires a == b || (es[j].PropE? && KeptBut(a, b, 4 * Place(es, j) + 8, 4))
    ensures Ended(b, strs, j + 1, es)
  {
    hide EventsAt, Dec32, Same, Place, Ext;
    PlaceStep(es, j);
    PlaceGrows(es, j + 1, |es|);
    PropExt(es[j]);
    if a != b {
      KeptWord(a, b, 4 * Place(es, j) + 8, 4, |a| - 4);
    }
  }

  lemma OffsetBound(st: bytes, es: seq<Event>, j: nat)
    requires j <= |es| && |st| == 4 * Place(es, |es|) + 4 && |st| <= INT_MAX
    ensures 4 * Place(es, j) <= INT_MAX
  {
    PlaceGrows(es, j, |es|);
  }

  /** A finished tree that was written by the events es. */
  ghost predicate Finished(fdt: Fdt, es: seq<Event>)
    reads fdt, fdt.mem
  {
    fdt.Laid() && Ended(fdt.St(), fdt.Strs(), |es|, es)
  }

  /** The strings are moved behind the structure. */
  method RelocateStrings(fdt: Fdt, ghost es: seq<Event>)
    requires Unfinished(fdt) && fdt.offDtStrings != 0 && Ended(Struct(fdt), Strings(fdt), 0, es)
    modifies fdt`offDtStrings, fdt.mem
    ensures fdt.StructIn() && fdt.offDtStrings == fdt.offDtStruct + fdt.sizeDtStruct
    ensures fdt.offDtStrings + fdt.sizeDtStrings <= fdt.totalsize
    ensures Ended(fdt.St(), old(Strings(fdt)), 0, es)
    ensures Block(fdt.mem[..], fdt.offDtStrings, fdt.sizeDtStrings) == old(Strings(fdt))
    ensures Block(fdt.mem[..], 0, fdt.offDtStruct) == old(Head(fdt))
  {
    hide Block, Ended, Fdt.St;
    Areas(fdt);
    var oldstroffset := fdt.totalsize - fdt.sizeDtStrings;
    var newstroffset := fdt.offDtStruct + fdt.sizeDtStruct;
    MoveBlock(fdt.mem, newstroffset, oldstroffset, fdt.sizeDtStrings);
    fdt.offDtStrings := newstroffset;
    StBlock(fdt);
  }

  /** The header updates at the end of fdt_finish. */
  method CompleteHeader(fdt: Fdt, ghost strs: bytes, ghost es: seq<Event>)
    requires fdt.StructIn() && fdt.version == FDT_LAST_SUPPORTED_VERSION
    requires fdt.offMemRsvmap == HEADER_SIZE && HEADER_SIZE + 16 <= fdt.offDtStruct
    requires fdt.offDtStrings == fdt.offDtStruct + fdt.sizeDtStruct
    requires fdt.offDtStrings + fdt.sizeDtStrings <= fdt.totalsize
    requires Ended(fdt.St(), strs, |es|, es) && Block(fdt.mem[..], fdt.offDtStrings, fdt.sizeDtStrings) == strs
    modifies fdt`totalsize, fdt`lastCompVersion, fdt`magic
    ensures Finished(fdt, es) && fdt.Strs() == strs
    ensures fdt.totalsize == fdt.offDtStruct + fdt.sizeDtStruct + fdt.sizeDtStrings
    ensures fdt.magic == 0xd00d_feed && fdt.version == 17 && fdt.lastCompVersion == 16
  {
    hide Block, Ended, Fdt.St, Fdt.Strs;
    StBlock(fdt);
    fdt.totalsize := fdt.offDtStrings + fdt.sizeDtStrings;
    fdt.lastCompVersion := FDT_LAST_COMPATIBLE_VERSION;
    fdt.magic := FDT_MAGIC;
    fdt.Blocks();
  }

  /** fdt_finish, behind the probe. */
  method PutFinish(fdt: Fdt, ghost es: seq<Event>) returns (err: int)
    requires Written(fdt, es)
    modifies fdt, fdt.mem
    ensures err != 0 ==> err == -NOSPACE && fdt.Hdr() == old(fdt.Hdr()) && fdt.mem[..] == old(fdt.mem[..])
    ensures err == 0 <==> old(fdt.offDtStruct + fdt.sizeDtStruct + fdt.sizeDtStrings + 4 <= fdt.totalsize)
    ensures err == 0 ==>
              (&& Finished(fdt, es) && fdt.Strs() == old(Strings(fdt)) &&
               Block(fdt.mem[..], 0, fdt.offDtStruct) == old(Head(fdt))
               && fdt.totalsize == fdt.offDtStruct + fdt.sizeDtStruct + fdt.sizeDtStrings
               && fdt.sizeDtStruct == old(fdt.sizeDtStruct) + 4 && fdt.sizeDtStrings == old(fdt.sizeDtStrings)
               && fdt.offDtStruct == old(fdt.offDtStruct) && fdt.offMemRsvmap == HEADER_SIZE)
    ensures err == 0 ==>
              (&& fdt.Hdr() == old(fdt.Hdr()).(magic := 0xd00d_feed, version := 17, lastCompVersion := 16,
                                               totalsize := fdt.totalsize, sizeDtStruct := fdt.sizeDtStruct,
                                               offDtStrings := fdt.offDtStrings)
               && fdt.offDtStrings == fdt.offDtStruct + fdt.sizeDtStruct)
  {
    hide Block, EventsAt, EventAt, Place, Dec32, Same, KeptBut, Ended, Struct, Strings, Head, Finished, Fdt.St,
         Fdt.Strs;
    ghost var a, strs := Struct(fdt), Strings(fdt);
    AreaSizes(fdt);
    var offset, ok := GrabSpace(fdt, 4);
    if !ok {
      return -NOSPACE;
    }
    ghost var b := Struct(fdt);
    AreaSizes(fdt);
    PutWord(fdt, offset, FDT_END);
    EndPut(a, b, Struct(fdt), strs, es);
    RelocateStrings(fdt, es);
    err := FixNames(fdt, strs, es);
    if err < 0 {
      return;
    }
    CompleteHeader(fdt, strs, es);
    err := 0;
  }

  /** fdt_finish. It does not ask whether every node has been closed. */
  method Finish(fdt: Fdt, ghost es: seq<Event>) returns (err: int)
    requires StructError(fdt.Hdr()) == 0 ==> Written(fdt, es)
    modifies fdt, fdt.mem
    ensures old(StructError(fdt.Hdr())) != 0 ==> err == old(StructError(fdt.Hdr()))
    ensures err == -BADSTATE <==>
              old(fdt.magic == FDT_MAGIC || (fdt.magic == FDT_SW_MAGIC && fdt.offDtStrings != fdt.totalsize))
    ensures err == -BADMAGIC <==> old(fdt.magic != FDT_MAGIC && fdt.magic != FDT_SW_MAGIC)
    ensures old(StructError(fdt.Hdr())) == 0 ==>
              err == if old(fdt.offDtStruct + fdt.sizeDtStruct + fdt.sizeDtStrings) + 4 > old(fdt.totalsize)
                     then -NOSPACE else 0
    ensures err != 0 ==> fdt.Hdr() == old(fdt.Hdr()) && fdt.mem[..] == old(fdt.mem[..])
    ensures err == 0 ==>
              (&& Finished(fdt, es) && fdt.Strs() == old(Strings(fdt)) &&
               Block(fdt.mem[..], 0, fdt.offDtStruct) == old(Head(fdt))
               && fdt.totalsize == fdt.offDtStruct + fdt.sizeDtStruct + fdt.sizeDtStrings
               && fdt.sizeDtStruct == old(fdt.sizeDtStruct) + 4 && fdt.sizeDtStrings == old(fdt.sizeDtStrings)
               && fdt.offDtStruct == old(fdt.offDtStruct) && fdt.offMemRsvmap == HEADER_SIZE)
    ensures err == 0 ==>
              (&& fdt.Hdr() == old(fdt.Hdr()).(magic := 0xd00d_feed, version := 17, lastCompVersion := 16,
                                               totalsize := fdt.totalsize, sizeDtStruct := fdt.sizeDtStruct,
                                               offDtStrings := fdt.offDtStrings)
               && fdt.offDtStrings == fdt.offDtStruct + fdt.sizeDtStruct)
  {
    hide EventsAt, Place, Block, Finished, Fdt.Strs;
    err := StructError(fdt.Hdr());
    if err != 0 {
      return;
    }
    err := PutFinish(fdt, es);
  }

  /** Each phase refuses the calls of the other, and a finished blob refuses them all. */
  lemma PhasesExclude(fdt: Fdt, rs: seq<Entry>, es: seq<Event>)
    ensures Reserving(fdt, rs) ==> StructError(fdt.Hdr()) == -BADSTATE && MemrsvError(fdt.Hdr()) == 0
    ensures Written(fdt, es) ==> MemrsvError(fdt.Hdr()) == -BADSTATE && StructError(fdt.Hdr()) == 0
    ensures Finished(fdt, es) ==> MemrsvError(fdt.Hdr()) == StructError(fdt.Hdr()) == -BADSTATE
  {
    hide EventsAt, Place, Block, Ended, Entries;
  }

  // ---------- Whole trees ----------

  /** The calls for a tree, balanced by construction, leave an encoding of it. */
  lemma FinishedTree(fdt: Fdt, t: Tree) returns (f: Forest)
    requires Finished(fdt, Flat(t))
    ensures Encodes(fdt.St(), f) && Named(f, fdt.Strs()) && Abs(f, fdt.Strs()) == t
  {
    hide EventsAt, Fdt.St, Fdt.Strs, Wf, Has, Place, Dec32, Named, Abs;
    var es := Flat(t);
    assert es[0..|es|] == es;
    f := FlatHas(fdt.St(), fdt.Strs(), es, 0, t);
    PlaceStart(es);
  }

  lemma EntryIs(m: bytes, so: nat, rs: seq<Entry>, i: nat)
    requires so <= |m| && i <= |rs| && Entries(Block(m, 0, so), rs + [Entry(0, 0)])
    ensures HEADER_SIZE + 16 * i + 16 <= so
    ensures EntryAt(m, HEADER_SIZE + 16 * i) == if i < |rs| then rs[i] else Entry(0, 0)
  {
    hide EntryAt;
    var h, off := Block(m, 0, so), HEADER_SIZE + 16 * i;
    assert EntryAt(h, off) == (rs + [Entry(0, 0)])[i];
    assert Same(h, off, m, off, 16);
    SameEntry(h, off, m, off, 16, 0);
  }

  /** The reserve list that has been written is the one that fdt_num_mem_rsv counts. */
  lemma {:induction false} EntriesRsv(m: bytes, so: nat, rs: seq<Entry>, i: nat)
    requires so <= |m| && i <= |rs| && Entries(Block(m, 0, so), rs + [Entry(0, 0)])
    requires forall e :: e in rs ==> e.size != 0
    ensures Rsv(m, HEADER_SIZE + 16 * i, so) == Walk.Some(rs[i..])
    decreases |rs| - i
  {
    var off := HEADER_SIZE + 16 * i;
    EntryIs(m, so, rs, i);
    hide EntryAt, Entries, Block;
    if i < |rs| {
      EntriesRsv(m, so, rs, i + 1);
      assert rs[i] in rs && [rs[i]] + rs[i + 1..] == rs[i..];
    } else {
      assert rs[i..] == [];
    }
  }

  /** Names without NUL characters, names and values within the range of an int. */
  predicate Callable(e: Event) {
    match e
    case BeginE(name) => 0 !in name && |name| <= MAX_LEN
    case PropE(name, value) => 0 !in name && |name| <= MAX_LEN && |value| <= MAX_LEN
    case EndE => true
  }

  /** The strings after one more call. */
  ghost function WithEvent(flags: u32, strs: bytes, e: Event): bytes {
    if e.PropE? then WithName(flags, strs, e.name) else strs
  }

  /** The strings after the first i of the calls es: every name is looked for in the strings so far. */
  ghost function Table(flags: u32, strs: bytes, es: seq<Event>, i: nat): bytes
    requires i <= |es|
  {
    if i == 0 then strs else WithEvent(flags, Table(flags, strs, es, i - 1), es[i - 1])
  }

  /** Whether there is room for the first i of the calls es behind top, with their strings. */
  ghost predicate Fits(flags: u32, strs: bytes, top: nat, es: seq<Event>, i: nat, total: nat)
    requires i <= |es|
  {
    top + 4 * Place(es, i) + |Table(flags, strs, es, i)| <= total
  }

  /**
   * What the caller of the writer has to see to: wherever the calls so far fit, the strings with the next name alone
   * would fit, too. Else the room test of fdt_add_string_ wraps around.
   */
  ghost predicate NamesSafe(flags: u32, strs: bytes, top: nat, es: seq<Event>, total: nat) {
    forall i :: 0 <= i < |es| && Fits(flags, strs, top, es, i, total) ==>
      |Table(flags, strs, es, i + 1)| <= total
  }

  lemma TableStep(flags: u32, strs: bytes, es: seq<Event>, i: nat)
    requires i < |es|
    ensures Table(flags, strs, es, i + 1) == WithEvent(flags, Table(flags, strs, es, i), es[i])
    ensures |Table(flags, strs, es, i)| <= |Table(flags, strs, es, i + 1)|
    ensures es[i].PropE? ==> |Table(flags, strs, es, i + 1)| <= |Table(flags, strs, es, i)| + |es[i].name| + 1
    ensures !es[i].PropE? ==> Table(flags, strs, es, i + 1) == Table(flags, strs, es, i)
  {
    hide ReadWrite.Absent, IsNew;
  }

  /** If all calls fit, so do the first i. */
  lemma {:induction false} FitsBefore(flags: u32, strs: bytes, top: nat, es: seq<Event>, i: nat, total: nat)
    requires i <= |es| && Fits(flags, strs, top, es, |es|, total)
    ensures Fits(flags, strs, top, es, i, total)
    decreases |es| - i
  {
    if i < |es| {
      FitsBefore(flags, strs, top, es, i + 1, total);
      PlaceStep(es, i);
      TableStep(flags, strs, es, i);
    }
  }

  /** Calls whose strings fit in the buffer altogether are safe. */
  lemma TableSafe(flags: u32, strs: bytes, top: nat, es: seq<Event>, total: nat)
    requires |Table(flags, strs, es, |es|)| <= total
    ensures NamesSafe(flags, strs, top, es, total)
  {
    hide Table, Place;
    forall i | 0 <= i < |es| && Fits(flags, strs, top, es, i, total) ensures |Table(flags, strs, es, i + 1)| <= total {
      TableGrows(flags, strs, es, i + 1);
    }
  }

  lemma {:induction false} TableGrows(flags: u32, strs: bytes, es: seq<Event>, i: nat)
    requires i <= |es|
    ensures |Table(flags, strs, es, i)| <= |Table(flags, strs, es, |es|)|
    decreases |es| - i
  {
    if i < |es| {
      TableStep(flags, strs, es, i);
      TableGrows(flags, strs, es, i + 1);
    }
  }

  /**
   * Calls whose property names, with their terminators, are no longer than header and reserve map are safe in every
   * buffer.
   */
  lemma ShortNamesSafe(flags: u32, strs: bytes, top: nat, es: seq<Event>, total: nat)
    requires forall e :: e in es && e.PropE? ==> |e.name| + 1 <= top
    ensures NamesSafe(flags, strs, top, es, total)
  {
    forall i | 0 <= i < |es| && Fits(flags, strs, top, es, i, total) ensures |Table(flags, strs, es, i + 1)| <= total {
      TableStep(flags, strs, es, i);
      assert es[i] in es;
    }
  }

  /** A string that is in the strings stays in them. */
  lemma HeldGrows(strs: bytes, more: bytes, s: bytes)
    requires !ReadWrite.Absent(strs, s)
    ensures !ReadWrite.Absent(more + strs, s)
  {
    hide ReadWrite.HoldsAt, Walk.StrAt;
    var off: nat :| ReadWrite.HoldsAt(strs, off, s);
    ReadWrite.HoldsIs(strs, off, s);
    StrAtBehind(more, strs, off);
    ReadWrite.HoldsIs(more + strs, |more| + off, s);
  }

  lemma AddedHeld(flags: u32, strs: bytes, s: bytes)
    requires 0 !in s
    ensures !ReadWrite.Absent(WithName(flags, strs, s), s)
  {
    hide ReadWrite.HoldsAt, Walk.StrAt;
    if IsNew(flags, strs, s) {
      AddedRef(strs, s);
      ReadWrite.HoldsIs((s + [0]) + strs, 0, s);
      ReadWrite.HeldNotAbsent((s + [0]) + strs, 0, s);
    } else {
      assert [] + strs == strs;
    }
  }

  /** With sharing, the name of a property written before takes up no room again. */
  lemma {:induction false} NameShared(flags: u32, strs: bytes, es: seq<Event>, i: nat, j: nat)
    requires i < j < |es| && es[i].PropE? && es[j].PropE? && es[i].name == es[j].name && 0 !in es[i].name
    requires flags != NO_NAME_DEDUP
    ensures Table(flags, strs, es, j + 1) == Table(flags, strs, es, j)
  {
    hide ReadWrite.Absent, Table;
    NameStays(flags, strs, es, i, j);
    TableStep(flags, strs, es, j);
    var t := Table(flags, strs, es, j);
    assert [] + t == t;
  }

  /** The characters of s, and a terminator, stand at off. */
  ghost predicate SpelledAt(t: bytes, off: nat, s: bytes) {
    off + |s| < |t| && t[off..off + |s|] == s && t[off + |s|] == 0
  }

  /**
   * A property takes up room for its name exactly when names are not to be shared, or when the strings so far do not
   * spell it, be it as the end of a longer one.
   */
  lemma NameTakesRoom(flags: u32, strs: bytes, es: seq<Event>, i: nat)
    requires i < |es| && es[i].PropE? && 0 !in es[i].name
    ensures var name, t := es[i].name, Table(flags, strs, es, i);
      Table(flags, strs, es, i + 1) ==
      if flags == 1 || forall off: nat :: !SpelledAt(t, off, name) then name + [0] + t else t
  {
    hide ReadWrite.HoldsAt, ReadWrite.Absent, Table, SpelledAt;
    TableStep(flags, strs, es, i);
    var name, t := es[i].name, Table(flags, strs, es, i);
    AbsentMeans(t, name);
    assert [] + t == t;
  }

  lemma AbsentMeans(t: bytes, s: bytes)
    requires 0 !in s
    ensures ReadWrite.Absent(t, s) <==> forall off: nat :: !SpelledAt(t, off, s)
  {
    hide ReadWrite.HoldsAt;
    forall off: nat ensures ReadWrite.HoldsAt(t, off, s) <==> SpelledAt(t, off, s) {
      if off + |s| < |t| {
        ReadWrite.StrAtMatch(t, off, s);
      } else {
        ReadWrite.StrAtTooLate(t, off, s);
      }
    }
  }

  lemma {:induction false} NameStays(flags: u32, strs: bytes, es: seq<Event>, i: nat, j: nat)
    requires i < j <= |es| && es[i].PropE? && 0 !in es[i].name
    ensures !ReadWrite.Absent(Table(flags, strs, es, j), es[i].name)
  {
    hide ReadWrite.Absent, Table, IsNew;
    TableStep(flags, strs, es, j - 1);
    var t := Table(flags, strs, es, j - 1);
    if i == j - 1 {
      AddedHeld(flags, t, es[i].name);
    } else {
      NameStays(flags, strs, es, i, j - 1);
      if es[j - 1].PropE? {
        HeldGrows(t, More(IsNew(flags, t, es[j - 1].name), es[j - 1].name), es[i].name);
      }
    }
  }

  /** The structure that t takes. */
  function StructSize(t: Tree): nat {
    match t
    case Nil => 0
    case PropT(_, value, rest) => 12 + Align4(|value|) + StructSize(rest)
    case NodeT(name, body, rest) => 4 * Ext(BeginE(name)) + StructSize(body) + 4 + StructSize(rest)
  }

  lemma {:induction false} PlaceJoin(es: seq<Event>, fs: seq<Event>, i: nat)
    requires i <= |fs|
    ensures Place(es + fs, |es| + i) == Place(es, |es|) + Place(fs, i)
  {
    if i == 0 {
      PlaceAppend(es, fs, |es|);
    } else {
      PlaceJoin(es, fs, i - 1);
      assert (es + fs)[|es| + i - 1] == fs[i - 1];
    }
  }

  lemma PlaceOne(e: Event)
    ensures Place([e], 1) == Ext(e)
  {
    assert Place([e], 0) == 0;
  }

  lemma {:induction false} FlatSize(t: Tree)
    ensures 4 * Place(Flat(t), |Flat(t)|) == StructSize(t)
  {
    match t
    case Nil =>
    case PropT(name, value, rest) =>
      PlaceOne(PropE(name, value));
      PlaceJoin([PropE(name, value)], Flat(rest), |Flat(rest)|);
      FlatSize(rest);
    case NodeT(name, body, rest) =>
      FlatSize(body);
      FlatSize(rest);
      NodeSize(BeginE(name), Flat(body), Flat(rest));
  }

  lemma NodeSize(e: Event, body: seq<Event>, rest: seq<Event>)
    ensures var es := [e] + body + [EndE] + rest;
      Place(es, |es|) == Ext(e) + Place(body, |body|) + 1 + Place(rest, |rest|)
  {
    PlaceOne(e);
    PlaceOne(EndE);
    assert Ext(EndE) == 1;
    hide Place, Ext;
    PlaceJoin([e], body, |body|);
    PlaceJoin([e] + body, [EndE], 1);
    PlaceJoin([e] + body + [EndE], rest, |rest|);
  }

  /** One call of the sequential writer. */
  method WriteEvent(fdt: Fdt, e: Event, ghost es: seq<Event>) returns (err: int)
    requires Written(fdt, es) && Callable(e) && |WithEvent(fdt.lastCompVersion, Strings(fdt), e)| <= fdt.totalsize
    modifies fdt, fdt.mem
    ensures err == 0 || err == -NOSPACE
    ensures err == 0 <==>
              old(fdt.offDtStruct + fdt.sizeDtStruct) + 4 * Ext(e) +
              |WithEvent(old(fdt.lastCompVersion), old(Strings(fdt)), e)| <= old(fdt.totalsize)
    ensures err == 0 ==>
              (&& Written(fdt, es + [e]) && Head(fdt) == old(Head(fdt)) && Steady(fdt.Hdr()) == old(Steady(fdt.Hdr()))
               && Strings(fdt) == WithEvent(old(fdt.lastCompVersion), old(Strings(fdt)), e)
               && fdt.sizeDtStruct == old(fdt.sizeDtStruct) + 4 * Ext(e))
  {
    hide EventsAt, Place, Block, Cells, IsNew, Head, Strings, Struct;
    WrittenPhase(fdt, es);
    AreaSizes(fdt);
    match e
    case BeginE(name) => err := BeginNode(fdt, name, es);
    case PropE(name, value) => err := Property(fdt, name, value, es);
    case EndE => err := EndNode(fdt, es);
  }

  /** A run of calls succeeds exactly when there is room for all of them. */
  method WriteEvents(fdt: Fdt, es: seq<Event>) returns (err: int)
    requires Written(fdt, []) && forall e :: e in es ==> Callable(e)
    requires NamesSafe(fdt.lastCompVersion, Strings(fdt), fdt.offDtStruct, es, fdt.totalsize)
    modifies fdt, fdt.mem
    ensures err == 0 || err == -NOSPACE
    ensures err == 0 <==>
              old(Fits(fdt.lastCompVersion, Strings(fdt), fdt.offDtStruct, es, |es|, fdt.totalsize))
    ensures err == 0 ==>
              (&& Written(fdt, es) && Head(fdt) == old(Head(fdt)) && Steady(fdt.Hdr()) == old(Steady(fdt.Hdr()))
               && Strings(fdt) == Table(old(fdt.lastCompVersion), old(Strings(fdt)), es, |es|)
               && fdt.sizeDtStruct == 4 * Place(es, |es|))
  {
    hide EventsAt, Place, Block, Ext, IsNew, WithEvent, Table, Head, Strings, Struct, Callable;
    ghost var flags, strs, top, total := fdt.lastCompVersion, Strings(fdt), fdt.offDtStruct, fdt.totalsize;
    StartTable(fdt, flags, strs, es);
    var i := 0;
    while i < |es|
      invariant i <= |es| && Written(fdt, es[..i])
      invariant Head(fdt) == old(Head(fdt)) && Steady(fdt.Hdr()) == old(Steady(fdt.Hdr()))
      invariant Strings(fdt) == Table(flags, strs, es, i) && fdt.sizeDtStruct == 4 * Place(es, i)
    {
      WrittenFits(fdt, es[..i], flags, strs, top, es, i);
      assert Fits(flags, strs, top, es, i, total);
      TableStep(flags, strs, es, i);
      PlaceStep(es, i);
      assert es[i] in es;
      err := WriteEvent(fdt, es[i], es[..i]);
      if err != 0 {
        if Fits(flags, strs, top, es, |es|, total) {
          FitsBefore(flags, strs, top, es, i + 1, total);
          assert false;
        }
        return;
      }
      assert es[..i] + [es[i]] == es[..i + 1];
      i := i + 1;
    }
    WrittenFits(fdt, es[..i], flags, strs, top, es, i);
    assert es[..i] == es;
    err := 0;
  }

  lemma StartTable(fdt: Fdt, flags: u32, strs: bytes, es: seq<Event>)
    requires Written(fdt, [])
    ensures Table(flags, strs, es, 0) == strs && Place(es, 0) == 0 && fdt.sizeDtStruct == 0 && es[..0] == []
  {
  }

  lemma WrittenFits(fdt: Fdt, pre: seq<Event>, flags: u32, strs: bytes, top: nat, es: seq<Event>, i: nat)
    requires Written(fdt, pre) && i <= |es| && fdt.offDtStruct == top && fdt.sizeDtStruct == 4 * Place(es, i)
    requires Strings(fdt) == Table(flags, strs, es, i)
    ensures Fits(flags, strs, top, es, i, fdt.totalsize)
  {
    hide EventsAt, Table, Place;
  }

  lemma WrittenPhase(fdt: Fdt, es: seq<Event>)
    requires Written(fdt, es)
    ensures StructError(fdt.Hdr()) == 0 && Unfinished(fdt)
  {
  }

  /** The calls that write the reserve entries rs from number i on, and their end. */
  method WriteEntries(fdt: Fdt, rs: seq<Entry>) returns (err: int)
    requires Reserving(fdt, [])
    modifies fdt, fdt.mem
    ensures err == if old(fdt.offDtStruct) + 16 * (|rs| + 1) <= old(fdt.totalsize) then 0 else -NOSPACE
    ensures err == 0 ==>
              (&& Written(fdt, []) && Entries(Head(fdt), rs + [Entry(0, 0)])
               && fdt.sizeDtStruct == 0 && fdt.sizeDtStrings == 0
               && fdt.offDtStruct == old(fdt.offDtStruct) + 16 * (|rs| + 1)
               && fdt.Hdr() == old(fdt.Hdr()).(offDtStruct := fdt.offDtStruct, offDtStrings := fdt.totalsize))
  {
    hide Block, EventsAt, Entries;
    var i := 0;
    while i < |rs|
      invariant i <= |rs| && Reserving(fdt, rs[..i])
      invariant fdt.Hdr() == old(fdt.Hdr()).(offDtStruct := fdt.offDtStruct)
      invariant fdt.offDtStruct == old(fdt.offDtStruct) + 16 * i
    {
      err := AddReservemapEntry(fdt, rs[i].address, rs[i].size, rs[..i]);
      if err != 0 {
        return;
      }
      assert rs[..i] + [rs[i]] == rs[..i + 1];
      i := i + 1;
    }
    assert rs[..i] == rs;
    err := FinishReservemap(fdt, rs);
  }

  /** A finished blob is read back. */
  ghost method ReadBack(fdt: Fdt, t: Tree, rs: seq<Entry>)
    requires Finished(fdt, Flat(t)) && fdt.offMemRsvmap == HEADER_SIZE
    requires fdt.offDtStruct == HEADER_SIZE + 16 * (|rs| + 1)
    requires Entries(Block(fdt.mem[..], 0, fdt.offDtStruct), rs + [Entry(0, 0)]) && forall e :: e in rs ==> e.size != 0
    modifies fdt`forest
    ensures fdt.Valid() && fdt.Tree() == t && Reserved(fdt) == Walk.Some(rs) && fdt.Strs() == old(fdt.Strs())
    ensures fdt.Hdr() == old(fdt.Hdr())
    ensures t.NodeT? && t.name == [] && t.rest == Nil ==> Checking.FullError(fdt, fdt.totalsize) == 0
  {
    hide Ended, Entries, Block, Flat, Fdt.St, Fdt.Strs, Rsv, Encodes, Abs, Named, Checking.FullError;
    EntriesRsv(fdt.mem[..], fdt.offDtStruct, rs, 0);
    var f := FinishedTree(fdt, t);
    fdt.Adopt(f);
    assert rs[0..] == rs;
    if t.NodeT? && t.name == [] && t.rest == Nil {
      Checking.RootPasses(fdt, t.body);
    }
  }

  /**
   * Writing a whole tree and reading it back: the calls succeed exactly when there is room for the header, the reserve
   * list, the structure and the strings, every name once unless names are not to be shared; and then the blob encodes
   * exactly t, and its reserve list is rs.
   */
  method WriteTree(fdt: Fdt, bufsize: nat, flags: u32, rs: seq<Entry>, t: Tree) returns (err: int)
    requires bufsize < INT_MAX && bufsize <= fdt.mem.Length && flags <= NO_NAME_DEDUP
    requires (forall e :: e in Flat(t) ==> Callable(e)) && forall e :: e in rs ==> e.size != 0
    requires var top := HEADER_SIZE + 16 * (|rs| + 1); top <= bufsize ==> NamesSafe(flags, [], top, Flat(t), bufsize)
    modifies fdt, fdt.mem
    ensures err == 0 || err == -NOSPACE
    ensures err == 0 <==>
              HEADER_SIZE + 16 * (|rs| + 1) + StructSize(t) + 4 + |Table(flags, [], Flat(t), |Flat(t)|)| <= bufsize
    ensures err == 0 ==>
              (&& fdt.Valid() && fdt.Tree() == t && Reserved(fdt) == Walk.Some(rs)
               && fdt.Strs() == Table(flags, [], Flat(t), |Flat(t)|)
               && fdt.totalsize == HEADER_SIZE + 16 * (|rs| + 1) + StructSize(t) + 4 + |fdt.Strs()|)
    ensures err == 0 ==>
              (var so, ss, ts := 48 + 16 * (|rs| + 1), StructSize(t) + 4, |fdt.Strs()|;
               fdt.Hdr() == Header(0xd00d_feed, so + ss + ts, so, so + ss, 48, 17, 16, 0, ts, ss))
    ensures err == 0 && t.NodeT? && t.name == [] && t.rest == Nil ==> Checking.FullError(fdt, fdt.totalsize) == 0
  {
    hide EventsAt, Entries, Finished, Block, Place, Flat, Fdt.St, Fdt.Strs, Struct, Strings, Head, Rsv, Encodes, Abs,
         Named,
      Align4, Table, NamesSafe, StructSize, Callable, Reserving, Written;
    err := Create(fdt, bufsize, flags);
    if err != 0 {
      return;
    }
    err := WriteEntries(fdt, rs);
    if err != 0 {
      return;
    }
    FlatSize(t);
    WrittenPhase(fdt, []);
    AreaSizes(fdt);
    assert Strings(fdt) == [];
    err := WriteEvents(fdt, Flat(t));
    if err != 0 {
      return;
    }
    WrittenPhase(fdt, Flat(t));
    AreaSizes(fdt);
    err := Finish(fdt, Flat(t));
    if err != 0 {
      return;
    }
    ReadBack(fdt, t, rs);
  }
}
