/** The memory reserve map: libfdt/fdt_ro.c, libfdt/fdt_rw.c. */
module Reserve {
  import opened Bytes
  import opened Tags
  import opened Blob
  import opened Forests
  import opened Edits
  import opened Trees
  import opened ReadWrite
  import ReadOnly
  import Walk

  type u64 = x: int | 0 <= x < 0x1_0000_0000_0000_0000

  datatype Entry = Entry(address: u64, size: u64)

  function Dec64(s: bytes, i: int): u64
    requires 0 <= i && i + 8 <= |s|
  {
    Dec32(s, i) * TWO_32 + Dec32(s, i + 4)
  }

  function EntryAt(m: bytes, i: nat): Entry
    requires i + 16 <= |m|
  {
    Entry(Dec64(m, i), Dec64(m, i + 8))
  }

  /** The reserve entries from off on, up to the first one of size 0, if that ends before end. */
  function Rsv(m: bytes, off: nat, end: nat): (r: Walk.Option<seq<Entry>>)
    requires end <= |m|
    ensures r.Some? ==> off + 16 * |r.value| + 16 <= end
    decreases end - off
  {
    if off + 16 > end then Walk.None
    else if EntryAt(m, off).size == 0 then Walk.Some([])
    else
      match Rsv(m, off + 16, end)
      case None => Walk.None
      case Some(l) => Walk.Some([EntryAt(m, off)] + l)
  }

  /** The entry at i: two big-endian numbers of eight bytes. */
  lemma EntryBytes(m: bytes, i: nat)
    requires i + 16 <= |m|
    ensures EntryAt(m, i).address == Number(m, i, 8) && EntryAt(m, i).size == Number(m, i + 8, 8)
  {
    WordNumber(m, i);
    WordNumber(m, i + 4);
    WordNumber(m, i + 8);
    WordNumber(m, i + 12);
    NumberJoin(m, i);
    NumberJoin(m, i + 8);
  }

  /** The big-endian number of n bytes. */
  function Number(m: bytes, i: nat, n: nat): nat
    requires i + n <= |m|
  {
    if n == 0 then 0 else Number(m, i, n - 1) * 0x100 + m[i + n - 1] as nat
  }

  lemma WordNumber(m: bytes, i: nat)
    requires i + 4 <= |m|
    ensures Dec32(m, i) == Number(m, i, 4)
  {
    NumberPair(m, i, 0);
    NumberPair(m, i, 2);
    assert Number(m, i, 4) == Number(m, i, 2) * 0x1_0000 + m[i + 2] as nat * 0x100 + m[i + 3] as nat;
  }

  lemma NumberJoin(m: bytes, i: nat)
    requires i + 8 <= |m|
    ensures Number(m, i, 8) == Number(m, i, 4) * TWO_32 + Number(m, i + 4, 4)
  {
    hide Number;
    NumberPair(m, i, 4);
    NumberPair(m, i, 6);
    NumberPair(m, i + 4, 0);
    NumberPair(m, i + 4, 2);
  }

  lemma NumberPair(m: bytes, i: nat, n: nat)
    requires i + n + 2 <= |m|
    ensures Number(m, i, 0) == 0
    ensures Number(m, i, n + 2) == Number(m, i, n) * 0x1_0000 + m[i + n] as nat * 0x100 + m[i + n + 1] as nat
  {
    assert Number(m, i, n + 1) == Number(m, i, n) * 0x100 + m[i + n] as nat;
  }

  /** Entry number n from off on has size 0, and lies in front of end. */
  ghost predicate EndsAt(m: bytes, off: nat, end: nat, n: nat) {
    off + 16 * n + 16 <= end <= |m| && forall k :: off + 16 * n + 8 <= k < off + 16 * n + 16 ==> m[k] == 0
  }

  lemma SizeZero(m: bytes, i: nat)
    requires i + 16 <= |m|
    ensures EntryAt(m, i).size == 0 <==> forall k :: i + 8 <= k < i + 16 ==> m[k] == 0
  {
  }

  /** The reserve list ends at its first entry of size 0; if there is none in front of end, there is no list. */
  lemma {:induction false} RsvExact(m: bytes, off: nat, end: nat)
    requires end <= |m|
    ensures Rsv(m, off, end).None? <==> forall n: nat :: !EndsAt(m, off, end, n)
    ensures Rsv(m, off, end).Some? ==>
              var l := Rsv(m, off, end).value;
              && EndsAt(m, off, end, |l|) && (forall n: nat :: n < |l| ==> !EndsAt(m, off, end, n))
              && (forall n: nat :: n < |l| ==> off + 16 * n + 16 <= |m| && l[n] == EntryAt(m, off + 16 * n))
    decreases end - off
  {
    hide EntryAt;
    if off + 16 <= end {
      SizeZero(m, off);
      if EntryAt(m, off).size == 0 {
        assert EndsAt(m, off, end, 0);
      } else {
        RsvExact(m, off + 16, end);
        assert !EndsAt(m, off, end, 0);
        RsvShift(m, off, off + 16, end);
      }
    }
  }

  lemma RsvShift(m: bytes, off: nat, next: nat, end: nat)
    requires end <= |m| && next <= end && next == off + 16 && EntryAt(m, off).size != 0 && !EndsAt(m, off, end, 0)
    requires Rsv(m, next, end).None? ==> forall n: nat :: !EndsAt(m, next, end, n)
    requires Rsv(m, next, end).Some? ==>
               var l := Rsv(m, next, end).value;
               && EndsAt(m, next, end, |l|) && (forall n: nat :: n < |l| ==> !EndsAt(m, next, end, n))
               && (forall n: nat :: n < |l| ==> next + 16 * n + 16 <= |m| && l[n] == EntryAt(m, next + 16 * n))
    ensures Rsv(m, off, end).None? ==> forall n: nat :: !EndsAt(m, off, end, n)
    ensures Rsv(m, off, end).Some? ==>
              var l := Rsv(m, off, end).value;
              && EndsAt(m, off, end, |l|) && (forall n: nat :: n < |l| ==> !EndsAt(m, off, end, n))
              && (forall n: nat :: n < |l| ==> off + 16 * n + 16 <= |m| && l[n] == EntryAt(m, off + 16 * n))
  {
    hide EntryAt, EndsAt;
    if Rsv(m, next, end).None? {
      forall n: nat ensures !EndsAt(m, off, end, n) {
        if n > 0 {
          EndsNext(m, off, end, n);
        }
      }
    } else {
      var t := Rsv(m, next, end).value;
      var l := Rsv(m, off, end).value;
      assert l == [EntryAt(m, off)] + t;
      EndsNext(m, off, end, |l|);
      forall n: nat | n < |l|
        ensures !EndsAt(m, off, end, n)
        ensures off + 16 * n + 16 <= |m| && l[n] == EntryAt(m, off + 16 * n)
      {
        if n > 0 {
          EndsNext(m, off, end, n);
          assert l[n] == t[n - 1] && next + 16 * (n - 1) == off + 16 * n;
        }
      }
    }
  }

  lemma EndsNext(m: bytes, off: nat, end: nat, n: nat)
    requires n > 0
    ensures EndsAt(m, off, end, n) <==> EndsAt(m, off + 16, end, n - 1)
  {
    assert off + 16 * n == off + 16 + 16 * (n - 1);
  }

  lemma SameEntry(a: bytes, i: nat, b: bytes, j: nat, n: nat, x: nat)
    requires Same(a, i, b, j, n) && x + 16 <= n
    ensures EntryAt(a, i + x) == EntryAt(b, j + x)
  {
    hide Dec32;
    MoveWord(a, i, b, j, n, x);
    MoveWord(a, i, b, j, n, x + 4);
    MoveWord(a, i, b, j, n, x + 8);
    MoveWord(a, i, b, j, n, x + 12);
  }

  /** A list of n entries is kept when the bytes of it and of its end are. */
  lemma {:induction false} RsvMove(a: bytes, i: nat, ea: nat, b: bytes, j: nat, eb: nat, n: nat)
    requires ea <= |a| && eb <= |b| && Rsv(a, i, ea).Some? && |Rsv(a, i, ea).value| == n
    requires Same(a, i, b, j, 16 * n + 16) && j + 16 * n + 16 <= eb
    ensures Rsv(b, j, eb) == Rsv(a, i, ea)
    decreases n
  {
    hide EntryAt;
    SameEntry(a, i, b, j, 16 * n + 16, 0);
    if n > 0 {
      SameShorter(a, i, b, j, 16 * n + 16, 16, 16 * (n - 1) + 16);
      RsvMove(a, i + 16, ea, b, j + 16, eb, n - 1);
    }
  }

  /** The reserve entries of a blob, when they end before the structure block. */
  ghost function Reserved(fdt: Fdt): Walk.Option<seq<Entry>>
    requires fdt.Laid()
    reads fdt, fdt.mem
  {
    Rsv(fdt.mem[..], fdt.offMemRsvmap, fdt.offDtStruct)
  }

  lemma SameSelf(m: bytes, i: nat, n: nat)
    requires i + n <= |m|
    ensures Same(m, i, m, i, n)
  {
  }

  /** fdt_mem_rsv: whether there is an entry n in the blob. */
  method MemRsv(rsvmap: u32, totalsize: u32, n: nat) returns (ok: bool)
    requires 16 <= totalsize && rsvmap + 16 * n < TWO_32
    ensures ok <==> rsvmap + 16 * n + 16 <= totalsize
  {
    var offset := U32(16 * n);
    var absoffset := U32(rsvmap + offset);
    if absoffset < rsvmap {
      return false;
    }
    if absoffset > U32(totalsize - 16) {
      return false;
    }
    return true;
  }

  method EntrySize(mem: array<byte>, i: nat) returns (size: u64)
    requires i + 16 <= mem.Length
    ensures size == EntryAt(mem[..], i).size
  {
    hide Dec32;
    var hi := Load32(mem, i + 8);
    var lo := Load32(mem, i + 12);
    size := hi * TWO_32 + lo;
  }

  /** The loop of fdt_num_mem_rsv, for a tree at base. */
  method CountRsv(mem: array<byte>, base: nat, rsvmap: u32, totalsize: u32) returns (r: int)
    requires 16 <= totalsize && base + totalsize <= mem.Length
    ensures match Rsv(mem[..], base + rsvmap, base + totalsize)
            case None => r == -TRUNCATED
            case Some(l) => r == |l|
  {
    hide EntryAt, U32;
    var i := 0;
    ghost var off := rsvmap as int;
    ghost var all := Rsv(mem[..], base + rsvmap, base + totalsize);
    while true
      invariant off == rsvmap + 16 * i && (i > 0 ==> off <= totalsize)
      invariant Rsv(mem[..], base + off, base + totalsize).None? <==> all.None?
      invariant all.Some? ==> |all.value| == i + |Rsv(mem[..], base + off, base + totalsize).value|
      decreases totalsize - off
    {
      var ok := MemRsv(rsvmap, totalsize, i);
      if !ok {
        return -TRUNCATED;
      }
      var size := EntrySize(mem, base + rsvmap + 16 * i);
      if size == 0 {
        return i;
      }
      i := i + 1;
      off := off + 16;
    }
  }

  /** fdt_num_mem_rsv, on an accepted header. */
  method NumMemRsv(fdt: Fdt) returns (r: int)
    requires fdt.StructIn() && ReadOnly.RoError(fdt.Hdr()) == 0
    ensures match Rsv(fdt.mem[..], fdt.offMemRsvmap, fdt.totalsize)
            case None => r == -TRUNCATED
            case Some(l) => r == |l|
  {
    hide Rsv;
    var probe := ReadOnly.RoProbe(fdt);
    if probe < 0 {
      return probe;
    }
    r := CountRsv(fdt.mem, 0, fdt.offMemRsvmap, fdt.totalsize);
  }

  /** A list that ends before the structure block ends in the blob. */
  lemma RsvWiden(m: bytes, off: nat, so: nat, ts: nat)
    requires so <= ts <= |m| && Rsv(m, off, so).Some?
    ensures Rsv(m, off, ts) == Rsv(m, off, so)
  {
    hide EntryAt;
    var n := |Rsv(m, off, so).value|;
    SameSelf(m, off, 16 * n + 16);
    RsvMove(m, off, so, m, off, ts, n);
  }

  // ---------- Adding and deleting entries ----------

  /** An entry put in at the end of the list is the last one, unless it has size 0 and ends the list. */
  lemma {:induction false} RsvInsert(a: bytes, b: bytes, off: nat, so: nat, so': nat, n: nat)
    requires so <= |a| && so' <= |b| && Rsv(a, off, so).Some? && |Rsv(a, off, so).value| == n
    requires off + 16 * n + 32 <= so' && Same(a, off, b, off, 16 * n) && Same(a, off + 16 * n, b, off + 16 * n + 16, 16)
    ensures var e := EntryAt(b, off + 16 * n);
      Rsv(b, off, so') == Walk.Some(Rsv(a, off, so).value + if e.size == 0 then [] else [e])
    decreases n
  {
    hide EntryAt;
    var e := EntryAt(b, off + 16 * n);
    if n == 0 {
      SameEntry(a, off, b, off + 16, 16, 0);
      assert Rsv(b, off + 16, so') == Walk.Some([]);
      assert Rsv(a, off, so).value == [];
      assert EntryAt(b, off) == e;
      assert [e] + [] == [e];
      assert e.size != 0 ==> Rsv(b, off, so') == Walk.Some([e]);
      var x := if e.size == 0 then [] else [e];
      assert [] + x == x;
    } else {
      SameEntry(a, off, b, off, 16 * n, 0);
      SameShorter(a, off, b, off, 16 * n, 16, 16 * (n - 1));
      RsvInsert(a, b, off + 16, so, so', n - 1);
      var t := Rsv(a, off + 16, so).value;
      var x := if e.size == 0 then [] else [e];
      assert [EntryAt(a, off)] + t + x == [EntryAt(a, off)] + (t + x);
    }
  }

  /** Taking out entry k of the list. */
  lemma {:induction false} RsvDelete(a: bytes, b: bytes, off: nat, so: nat, so': nat, n: nat, k: nat)
    requires so <= |a| && so' <= |b| && Rsv(a, off, so).Some? && |Rsv(a, off, so).value| == n && k < n
    requires off + 16 * n <= so'
    requires Same(a, off, b, off, 16 * k) && Same(a, off + 16 * k + 16, b, off + 16 * k, 16 * (n - k))
    ensures Rsv(b, off, so') == Walk.Some(Rsv(a, off, so).value[..k] + Rsv(a, off, so).value[k + 1..])
    decreases k
  {
    hide EntryAt, Same;
    var l := Rsv(a, off, so).value;
    if k == 0 {
      RsvMove(a, off + 16, so, b, off, so', n - 1);
      assert l[..0] + l[1..] == Rsv(a, off + 16, so).value;
    } else {
      SameEntry(a, off, b, off, 16 * k, 0);
      SameShorter(a, off, b, off, 16 * k, 16, 16 * (k - 1));
      RsvDelete(a, b, off + 16, so, so', n - 1, k - 1);
      var t := Rsv(a, off + 16, so).value;
      assert l[..k] + l[k + 1..] == [EntryAt(a, off)] + (t[..k - 1] + t[k..]);
    }
  }

  /** What moving the bytes from p + oldlen on does to the blocks behind them. */
  lemma MovedBehind(a: bytes, b: bytes, p: nat, oldlen: nat, newlen: nat, so: nat, ss: nat, to: nat, ts: nat, so': int,
                    to': int)
    requires Moved(a, b, p, oldlen, newlen, to + ts) && p + oldlen <= so && so + ss <= to
    requires so' == so - oldlen + newlen && to' == to - oldlen + newlen
    ensures 0 <= so' && so' + ss <= to' && to' + ts <= |b|
    ensures Block(a, so, ss) == Block(b, so', ss) && Block(a, to, ts) == Block(b, to', ts)
    ensures Same(a, 0, b, 0, p) && Same(a, p + oldlen, b, p + newlen, so - p - oldlen)
  {
    SameSlices(a, so, b, so', ss);
    SameSlices(a, to, b, to', ts);
  }

  /** The header fields that no edit of the reserve map changes. */
  function Fixed(h: Header): Header {
    h.(offDtStruct := 0, offDtStrings := 0)
  }

  /** fdt_splice_mem_rsv_, at offset p of the blob. */
  method SpliceMemRsv(fdt: Fdt, p: nat, oldlen: nat, newlen: nat) returns (err: int)
    requires fdt.Laid() && p + oldlen <= fdt.offDtStruct && newlen <= 16
    requires fdt.offMemRsvmap + 16 + oldlen <= fdt.offDtStruct + newlen
    modifies fdt.mem, fdt`offDtStruct, fdt`offDtStrings
    ensures fdt.Laid() && Fixed(fdt.Hdr()) == old(Fixed(fdt.Hdr()))
    ensures err == 0 <==> old(fdt.offDtStrings + fdt.sizeDtStrings) - oldlen + newlen <= fdt.totalsize
    ensures err != 0 ==> err == -NOSPACE && fdt.Hdr() == old(fdt.Hdr()) && fdt.mem[..] == old(fdt.mem[..])
    ensures err != 0 ==> fdt.offDtStruct == old(fdt.offDtStruct) && fdt.offDtStrings == old(fdt.offDtStrings)
    ensures err == 0 ==>
      && fdt.offDtStruct == old(fdt.offDtStruct) - oldlen + newlen
      && fdt.offDtStrings == old(fdt.offDtStrings) - oldlen + newlen
      && Moved(old(fdt.mem[..]), fdt.mem[..], p, oldlen, newlen, old(fdt.offDtStrings + fdt.sizeDtStrings))
  {
    hide Moved;
    var delta := newlen - oldlen;
    err := Splice(fdt, p, oldlen, newlen);
    if err != 0 {
      return;
    }
    fdt.offDtStruct := fdt.offDtStruct + delta;
    fdt.offDtStrings := fdt.offDtStrings + delta;
  }

  /** fdt_splice_mem_rsv_ in terms of the blocks. */
  method SpliceReserve(fdt: Fdt, p: nat, oldlen: nat, newlen: nat) returns (err: int)
    requires fdt.Laid() && p + oldlen <= fdt.offDtStruct && newlen <= 16
    requires fdt.offMemRsvmap + 16 + oldlen <= fdt.offDtStruct + newlen
    modifies fdt.mem, fdt`offDtStruct, fdt`offDtStrings
    ensures fdt.Laid() && Fixed(fdt.Hdr()) == old(Fixed(fdt.Hdr()))
    ensures fdt.St() == old(fdt.St()) && fdt.Strs() == old(fdt.Strs())
    ensures err == 0 <==> old(fdt.offDtStrings + fdt.sizeDtStrings) - oldlen + newlen <= fdt.totalsize
    ensures err != 0 ==> err == -NOSPACE && fdt.Hdr() == old(fdt.Hdr()) && fdt.mem[..] == old(fdt.mem[..])
    ensures err == 0 ==>
      && fdt.offDtStruct == old(fdt.offDtStruct) - oldlen + newlen
      && fdt.offDtStrings == old(fdt.offDtStrings) - oldlen + newlen
      && Same(old(fdt.mem[..]), 0, fdt.mem[..], 0, p)
      && Same(old(fdt.mem[..]), p + oldlen, fdt.mem[..], p + newlen, old(fdt.offDtStruct) - p - oldlen)
  {
    hide *;
    fdt.Blocks();
    ghost var a := fdt.mem[..];
    ghost var so, ss, to, ts := fdt.offDtStruct, fdt.sizeDtStruct, fdt.offDtStrings, fdt.sizeDtStrings;
    err := SpliceMemRsv(fdt, p, oldlen, newlen);
    fdt.Blocks();
    if err != 0 {
      return;
    }
    MovedBehind(a, fdt.mem[..], p, oldlen, newlen, so, ss, to, ts, fdt.offDtStruct, fdt.offDtStrings);
  }

  method Store64(mem: array<byte>, i: nat, v: u64)
    requires i + 8 <= mem.Length
    modifies mem
    ensures Dec64(mem[..], i) == v
    ensures forall k :: 0 <= k < mem.Length && !(i <= k < i + 8) ==> mem[k] == old(mem[k])
  {
    hide Dec32;
    Store32(mem, i, v / TWO_32);
    ghost var a := mem[..];
    Store32(mem, i + 4, v % TWO_32);
    WordKept(a, mem[..], i);
  }

  lemma WordKept(a: bytes, b: bytes, i: nat)
    requires |a| == |b| && i + 4 <= |a| && forall k {:trigger b[k]} :: i <= k < i + 4 ==> b[k] == a[k]
    ensures Dec32(a, i) == Dec32(b, i)
  {
  }

  /** The two stores of a new entry. */
  method StoreEntry(fdt: Fdt, p: nat, e: Entry)
    requires fdt.Laid() && p + 16 <= fdt.offDtStruct
    modifies fdt.mem
    ensures fdt.St() == old(fdt.St()) && fdt.Strs() == old(fdt.Strs())
    ensures EntryAt(fdt.mem[..], p) == e
    ensures KeptBut(old(fdt.mem[..]), fdt.mem[..], p, 16)
  {
    hide Fdt.St, Fdt.Strs, Dec64, KeptBut, Block;
    fdt.Blocks();
    ghost var a := fdt.mem[..];
    Store64(fdt.mem, p, e.address);
    ghost var b := fdt.mem[..];
    Store64(fdt.mem, p + 8, e.size);
    DoubleKept(b, fdt.mem[..], p);
    BehindWrite(a, fdt.mem[..], p, 16, fdt.offDtStruct, fdt.sizeDtStruct, fdt.offDtStrings, fdt.sizeDtStrings);
    fdt.Blocks();
  }

  lemma DoubleKept(a: bytes, b: bytes, i: nat)
    requires |a| == |b| && i + 8 <= |a| && forall k {:trigger b[k]} :: i <= k < i + 8 ==> b[k] == a[k]
    ensures Dec64(a, i) == Dec64(b, i)
  {
    hide Dec32;
    WordKept(a, b, i);
    WordKept(a, b, i + 4);
  }

  lemma BehindWrite(a: bytes, b: bytes, y: nat, n: nat, so: nat, ss: nat, to: nat, ts: nat)
    requires |a| == |b| && y + n <= so && so + ss <= to && to + ts <= |a|
    requires forall k {:trigger b[k]} :: 0 <= k < |b| && !(y <= k < y + n) ==> b[k] == a[k]
    ensures Block(a, so, ss) == Block(b, so, ss) && Block(a, to, ts) == Block(b, to, ts)
    ensures KeptBut(a, b, y, n)
  {
    SameSlices(a, so, b, so, ss);
    SameSlices(a, to, b, to, ts);
  }

  lemma EntryInserted(a: bytes, b: bytes, c: bytes, off: nat, so: nat, n: nat)
    requires so <= |a| && Rsv(a, off, so).Some? && |Rsv(a, off, so).value| == n && so + 16 <= |c|
    requires Same(a, 0, b, 0, off + 16 * n) && Same(a, off + 16 * n, b, off + 16 * n + 16, so - off - 16 * n)
    requires KeptBut(b, c, off + 16 * n, 16)
    ensures var e := EntryAt(c, off + 16 * n);
      Rsv(c, off, so + 16) == Walk.Some(Rsv(a, off, so).value + if e.size == 0 then [] else [e])
  {
    hide EntryAt, Same;
    var p := off + 16 * n;
    SameShorter(a, 0, b, 0, p, off, 16 * n);
    SameShorter(b, 0, c, 0, p, off, 16 * n);
    SameTrans(a, off, b, off, c, off, 16 * n);
    SameShorter(a, p, b, p + 16, so - p, 0, 16);
    SameShorter(b, p + 16, c, p + 16, |b| - p - 16, 0, 16);
    SameTrans(a, p, b, p + 16, c, p + 16, 16);
    RsvInsert(a, c, off, so, so + 16, n);
  }

  /**
   * fdt_add_mem_rsv. The new entry becomes the last one; with size 0 it becomes a new end of the list
   * instead. The tree stays as it is.
   */
  method AddMemRsv(fdt: Fdt, address: u64, size: u64) returns (err: int)
    requires RwError(fdt.Hdr()) == 0 ==> fdt.Valid() && Reserved(fdt).Some?
    modifies fdt, fdt.mem
    ensures old(RwError(fdt.Hdr())) != 0 ==>
              (err == old(RwError(fdt.Hdr())) && fdt.Hdr() == old(fdt.Hdr()) && fdt.mem[..] == old(fdt.mem[..]))
    ensures old(RwError(fdt.Hdr())) == 0 ==>
              (&& fdt.Valid() && Fixed(fdt.Hdr()) == old(Fixed(fdt.Hdr())) && fdt.Strs() == old(fdt.Strs())
               && fdt.St() == old(fdt.St()) && fdt.forest == old(fdt.forest) && fdt.Tree() == old(fdt.Tree())
               && (err == 0 <==> old(fdt.offDtStrings + fdt.sizeDtStrings) + 16 <= fdt.totalsize))
    ensures old(RwError(fdt.Hdr())) == 0 && err == 0 ==>
              (&& Reserved(fdt) ==
               Walk.Some(old(Reserved(fdt)).value + if size == 0 then [] else [Entry(address, size)])
               && fdt.offDtStruct == old(fdt.offDtStruct) + 16 && fdt.offDtStrings == old(fdt.offDtStrings) + 16)
    ensures old(RwError(fdt.Hdr())) == 0 && err != 0 ==>
              err == -NOSPACE && fdt.Hdr() == old(fdt.Hdr()) && fdt.mem[..] == old(fdt.mem[..])
  {
    hide Fdt.St, Fdt.Strs, Encodes, Abs, Named, Rsv, EntryAt, Same, KeptBut, RwError;
    err := RwProbe(fdt);
    if err != 0 {
      return;
    }
    ghost var a, so, off := fdt.mem[..], fdt.offDtStruct, fdt.offMemRsvmap;
    RsvWiden(a, off, so, fdt.totalsize);
    RsvEnd(a, off, so);
    var n := NumMemRsv(fdt);
    var p := fdt.offMemRsvmap + 16 * n;
    err := SpliceReserve(fdt, p, 0, 16);
    if err != 0 {
      return;
    }
    ghost var b := fdt.mem[..];
    StoreEntry(fdt, p, Entry(address, size));
    EntryInserted(a, b, fdt.mem[..], off, so, n);
  }

  lemma RsvEnd(m: bytes, off: nat, so: nat)
    requires so <= |m| && Rsv(m, off, so).Some?
    ensures off + 16 * |Rsv(m, off, so).value| + 16 <= so
  {
  }

  /** fdt_del_mem_rsv */
  method DelMemRsv(fdt: Fdt, n: nat) returns (err: int)
    requires RwError(fdt.Hdr()) == 0 ==> fdt.Valid() && Reserved(fdt).Some?
    modifies fdt, fdt.mem
    ensures old(RwError(fdt.Hdr())) != 0 ==>
              (err == old(RwError(fdt.Hdr())) && fdt.Hdr() == old(fdt.Hdr()) && fdt.mem[..] == old(fdt.mem[..]))
    ensures old(RwError(fdt.Hdr())) == 0 ==>
              (&& fdt.Valid() && Fixed(fdt.Hdr()) == old(Fixed(fdt.Hdr())) && fdt.Strs() == old(fdt.Strs())
               && fdt.St() == old(fdt.St()) && fdt.forest == old(fdt.forest) && fdt.Tree() == old(fdt.Tree())
               && err == if n < |old(Reserved(fdt)).value| then 0 else -NOTFOUND)
    ensures old(RwError(fdt.Hdr())) == 0 && err == 0 ==>
              (&& Reserved(fdt) == Walk.Some(old(Reserved(fdt)).value[..n] + old(Reserved(fdt)).value[n + 1..])
               && fdt.offDtStruct == old(fdt.offDtStruct) - 16 && fdt.offDtStrings == old(fdt.offDtStrings) - 16)
    ensures old(RwError(fdt.Hdr())) == 0 && err != 0 ==>
              fdt.Hdr() == old(fdt.Hdr()) && fdt.mem[..] == old(fdt.mem[..])
  {
    hide Fdt.St, Fdt.Strs, Encodes, Abs, Named, Rsv, EntryAt, Same, RwError;
    err := RwProbe(fdt);
    if err != 0 {
      return;
    }
    ghost var a, so, off := fdt.mem[..], fdt.offDtStruct, fdt.offMemRsvmap;
    RsvWiden(a, off, so, fdt.totalsize);
    RsvEnd(a, off, so);
    var num := NumMemRsv(fdt);
    if n >= num {
      return -NOTFOUND;
    }
    var p := fdt.offMemRsvmap + 16 * n;
    err := SpliceReserve(fdt, p, 16, 0);
    EntryDeleted(a, fdt.mem[..], off, so, num, n);
  }

  lemma EntryDeleted(a: bytes, b: bytes, off: nat, so: nat, n: nat, k: nat)
    requires so <= |a| && Rsv(a, off, so).Some? && |Rsv(a, off, so).value| == n && k < n && 16 <= so && so - 16 <= |b|
    requires Same(a, 0, b, 0, off + 16 * k) && Same(a, off + 16 * k + 16, b, off + 16 * k, so - off - 16 * k - 16)
    ensures Rsv(b, off, so - 16) == Walk.Some(Rsv(a, off, so).value[..k] + Rsv(a, off, so).value[k + 1..])
  {
    hide EntryAt, Same;
    SameShorter(a, 0, b, 0, off + 16 * k, off, 16 * k);
    SameShorter(a, off + 16 * k + 16, b, off + 16 * k, so - off - 16 * k - 16, 0, 16 * (n - k));
    RsvDelete(a, b, off, so, so - 16, n, k);
  }
}
