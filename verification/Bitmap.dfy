/** src/klibc/bitmap.c: bitmaps over 32-bit words. A set bit is a used slot. */
module Bitmaps {
  import opened Bytes

  const WORD_SIZE := 32
  const WORD_MAX: u32 := 0xffff_ffff

  // ---------- Bits of a word ----------

  predicate Bit(w: nat, k: nat) {
    if k == 0 then w % 2 == 1 else Bit(w / 2, k - 1)
  }

  /** w | 1 << k */
  function SetBit(w: nat, k: nat): nat {
    if k == 0 then w / 2 * 2 + 1 else SetBit(w / 2, k - 1) * 2 + w % 2
  }

  /** w & ~(1 << k) */
  function ClearBit(w: nat, k: nat): nat {
    if k == 0 then w / 2 * 2 else ClearBit(w / 2, k - 1) * 2 + w % 2
  }

  function Pow2(n: nat): (r: nat)
    ensures r >= 1
  {
    if n == 0 then 1 else 2 * Pow2(n - 1)
  }

  lemma Pow32()
    ensures Pow2(32) == TWO_32
  {
    assert Pow2(8) == 0x100;
    assert Pow2(16) == 0x1_0000;
    assert Pow2(24) == 0x100_0000;
  }

  lemma {:induction false} SetBitAt(w: nat, k: nat, j: nat)
    ensures Bit(SetBit(w, k), j) <==> j == k || Bit(w, j)
  {
    if k > 0 && j > 0 {
      SetBitAt(w / 2, k - 1, j - 1);
    }
  }

  lemma {:induction false} ClearBitAt(w: nat, k: nat, j: nat)
    ensures Bit(ClearBit(w, k), j) <==> j != k && Bit(w, j)
  {
    if k > 0 && j > 0 {
      ClearBitAt(w / 2, k - 1, j - 1);
    }
  }

  lemma {:induction false} SetBitRange(w: nat, k: nat, n: nat)
    requires w < Pow2(n) && k < n
    ensures SetBit(w, k) < Pow2(n)
  {
    var p := Pow2(n - 1);
    assert Pow2(n) == 2 * p;
    Halves(w, p);
    if k > 0 {
      SetBitRange(w / 2, k - 1, n - 1);
      Doubled(SetBit(w / 2, k - 1), w % 2, p);
    } else {
      Doubled(w / 2, 1, p);
    }
  }

  lemma Halves(w: nat, p: nat)
    requires w < 2 * p
    ensures w / 2 < p
  {
  }

  lemma Doubled(x: nat, b: nat, p: nat)
    requires x < p && b < 2
    ensures x * 2 + b < 2 * p
  {
  }

  lemma {:induction false} ClearBitRange(w: nat, k: nat, n: nat)
    requires w < Pow2(n) && k < n
    ensures ClearBit(w, k) < Pow2(n)
  {
    if k > 0 {
      ClearBitRange(w / 2, k - 1, n - 1);
    }
  }

  /** ~w, for a word of n bits. */
  lemma {:induction false} ComplementBit(w: nat, n: nat, k: nat)
    requires w < Pow2(n) && k < n
    ensures Bit(Pow2(n) - 1 - w, k) <==> !Bit(w, k)
  {
    if k > 0 {
      assert (Pow2(n) - 1 - w) / 2 == Pow2(n - 1) - 1 - w / 2;
      ComplementBit(w / 2, n - 1, k - 1);
    }
  }

  lemma {:induction false} ZeroBits(k: nat)
    ensures !Bit(0, k)
  {
    if k > 0 {
      ZeroBits(k - 1);
    }
  }

  /** All bits of the largest word of n bits are set. */
  lemma {:induction false} OnesBit(n: nat, k: nat)
    requires k < n
    ensures Bit(Pow2(n) - 1, k)
  {
    assert (Pow2(n) - 1) / 2 == Pow2(n - 1) - 1;
    if k > 0 {
      OnesBit(n - 1, k - 1);
    }
  }

  /** Any other word of n bits has a clear bit. */
  lemma {:induction false} SomeClear(w: nat, n: nat) returns (k: nat)
    requires w < Pow2(n) - 1
    ensures k < n && !Bit(w, k)
  {
    if w % 2 == 0 {
      k := 0;
    } else {
      k := SomeClear(w / 2, n - 1);
      k := k + 1;
    }
  }

  /** The number of clear bits among the lowest n bits. */
  function Clear(w: nat, n: nat): nat {
    if n == 0 then 0 else (if w % 2 == 1 then 0 else 1) + Clear(w / 2, n - 1)
  }

  lemma {:induction false} ClearSet(w: nat, k: nat, n: nat)
    requires k < n
    ensures Clear(SetBit(w, k), n) == Clear(w, n) - if Bit(w, k) then 0 else 1
  {
    if k > 0 {
      ClearSet(w / 2, k - 1, n - 1);
    }
  }

  lemma {:induction false} ClearCleared(w: nat, k: nat, n: nat)
    requires k < n
    ensures Clear(ClearBit(w, k), n) == Clear(w, n) + if Bit(w, k) then 1 else 0
  {
    if k > 0 {
      ClearCleared(w / 2, k - 1, n - 1);
    }
  }

  lemma {:induction false} ClearZero(n: nat)
    ensures Clear(0, n) == n
  {
    if n > 0 {
      ClearZero(n - 1);
    }
  }

  lemma {:induction false} ClearSome(w: nat, k: nat, n: nat)
    requires k < n && !Bit(w, k)
    ensures Clear(w, n) > 0
  {
    if k > 0 {
      ClearSome(w / 2, k - 1, n - 1);
    }
  }

  // ---------- Slots ----------

  /** Slot s is used in the words ws. */
  predicate IsUsed(ws: seq<u32>, s: nat)
    requires s < 32 * |ws|
  {
    Bit(ws[s / 32], s % 32)
  }

  lemma SlotParts(i: nat, k: nat)
    requires k < 32
    ensures (32 * i + k) / 32 == i && (32 * i + k) % 32 == k
  {
  }

  /** The number of free slots. */
  function Free(ws: seq<u32>): nat {
    if ws == [] then 0 else Clear(ws[0], 32) + Free(ws[1..])
  }

  lemma {:induction false} FreeUpdate(ws: seq<u32>, i: nat, w: u32)
    requires i < |ws|
    ensures Free(ws[i := w]) == Free(ws) - Clear(ws[i], 32) + Clear(w, 32)
  {
    if i == 0 {
      assert ws[0 := w][1..] == ws[1..];
    } else {
      assert ws[i := w][1..] == ws[1..][i - 1 := w];
      FreeUpdate(ws[1..], i - 1, w);
    }
  }

  lemma {:induction false} FreeSome(ws: seq<u32>, i: nat)
    requires i < |ws| && Clear(ws[i], 32) > 0
    ensures Free(ws) > 0
  {
    if i > 0 {
      FreeSome(ws[1..], i - 1);
    }
  }

  /** ws with slot s used. */
  function WithUsed(ws: seq<u32>, s: nat): (r: seq<u32>)
    requires s < 32 * |ws|
    ensures |r| == |ws|
  {
    SetWordRange(ws[s / 32], s % 32);
    ws[s / 32 := SetBit(ws[s / 32], s % 32)]
  }

  /** ws with slot s free. */
  function WithFree(ws: seq<u32>, s: nat): (r: seq<u32>)
    requires s < 32 * |ws|
    ensures |r| == |ws|
  {
    ClearWordRange(ws[s / 32], s % 32);
    ws[s / 32 := ClearBit(ws[s / 32], s % 32)]
  }

  lemma SetWordRange(w: u32, k: nat)
    requires k < 32
    ensures SetBit(w, k) < TWO_32
  {
    Pow32();
    SetBitRange(w, k, 32);
  }

  lemma ClearWordRange(w: u32, k: nat)
    requires k < 32
    ensures ClearBit(w, k) < TWO_32
  {
    Pow32();
    ClearBitRange(w, k, 32);
  }

  lemma WithUsedMeans(ws: seq<u32>, s: nat, t: nat)
    requires s < 32 * |ws| && t < 32 * |ws|
    ensures IsUsed(WithUsed(ws, s), t) <==> t == s || IsUsed(ws, t)
    ensures Free(WithUsed(ws, s)) == Free(ws) - if IsUsed(ws, s) then 0 else 1
  {
    SetBitAt(ws[s / 32], s % 32, t % 32);
    ClearSet(ws[s / 32], s % 32, 32);
    FreeUpdate(ws, s / 32, WithUsed(ws, s)[s / 32]);
  }

  lemma WithFreeMeans(ws: seq<u32>, s: nat, t: nat)
    requires s < 32 * |ws| && t < 32 * |ws|
    ensures IsUsed(WithFree(ws, s), t) <==> t != s && IsUsed(ws, t)
    ensures Free(WithFree(ws, s)) == Free(ws) + if IsUsed(ws, s) then 1 else 0
  {
    ClearBitAt(ws[s / 32], s % 32, t % 32);
    ClearCleared(ws[s / 32], s % 32, 32);
    FreeUpdate(ws, s / 32, WithFree(ws, s)[s / 32]);
  }

  /** s is the lowest free slot. */
  ghost predicate LowestFree(ws: seq<u32>, s: nat) {
    s < 32 * |ws| && !IsUsed(ws, s) && forall t :: 0 <= t < s ==> IsUsed(ws, t)
  }

  ghost predicate SlotsFree(ws: seq<u32>) {
    forall t :: 0 <= t < 32 * |ws| ==> !IsUsed(ws, t)
  }

  ghost predicate AllUsed(ws: seq<u32>) {
    forall t :: 0 <= t < 32 * |ws| ==> IsUsed(ws, t)
  }

  /** A full word has only used slots. */
  lemma FullWord(ws: seq<u32>, i: nat, t: nat)
    requires i < |ws| && ws[i] == WORD_MAX && 32 * i <= t < 32 * i + 32
    ensures IsUsed(ws, t)
  {
    Pow32();
    SlotParts(i, t - 32 * i);
    OnesBit(32, t - 32 * i);
  }

  lemma {:induction false} FreeZero(ws: seq<u32>)
    requires forall i :: 0 <= i < |ws| ==> ws[i] == 0
    ensures Free(ws) == 32 * |ws|
  {
    if ws != [] {
      ClearZero(32);
      FreeZero(ws[1..]);
    }
  }

  lemma NotFull(w: u32)
    requires w != WORD_MAX
    ensures exists k :: 0 <= k < 32 && !Bit(w, k)
  {
    Pow32();
    var k := SomeClear(w, 32);
  }

  lemma CountDown(n: int)
    ensures U32(U32(n) - 1) == U32(n - 1)
  {
  }

  lemma CountUp(n: int)
    ensures U32(U32(n) + 1) == U32(n + 1)
  {
  }

  /** Clearing a bit changes the word exactly when it was set. */
  lemma ClearedChanged(w: nat, k: nat)
    ensures ClearBit(w, k) != w <==> Bit(w, k)
  {
    ClearBitAt(w, k, k);
    if !Bit(w, k) {
      ClearedSame(w, k);
    }
  }

  lemma {:induction false} ClearedSame(w: nat, k: nat)
    requires !Bit(w, k)
    ensures ClearBit(w, k) == w
  {
    if k > 0 {
      ClearedSame(w / 2, k - 1);
    }
  }

  /** count_trailing_zeroes */
  method CountTrailingZeroes(x: u32) returns (r: nat)
    ensures r <= 32 && (r < 32 ==> Bit(x, r)) && forall k :: 0 <= k < r ==> !Bit(x, k)
  {
    for i := 0 to 32
      invariant forall k :: 0 <= k < i ==> !Bit(x, k)
    {
      if Bit(x, i) {
        return i;
      }
    }
    return 32;
  }

  /** The lowest set bit of the complement of w is the lowest clear bit of w. */
  lemma TrailingOnes(w: u32, x: u32, r: nat)
    requires w != WORD_MAX && x == WORD_MAX - w
    requires r <= 32 && (r < 32 ==> Bit(x, r)) && forall k :: 0 <= k < r ==> !Bit(x, k)
    ensures r < 32 && !Bit(w, r) && forall k :: 0 <= k < r ==> Bit(w, k)
  {
    Pow32();
    NotFull(w);
    forall k | 0 <= k < 32 ensures Bit(x, k) <==> !Bit(w, k) {
      ComplementBit(w, 32, k);
    }
  }

  lemma LowestIn(ws: seq<u32>, i: nat, k: nat)
    requires i < |ws| && k < 32 && !Bit(ws[i], k) && forall j :: 0 <= j < k ==> Bit(ws[i], j)
    requires forall t :: 0 <= t < 32 * i ==> IsUsed(ws, t)
    ensures LowestFree(ws, 32 * i + k)
  {
    SlotParts(i, k);
    forall t | 32 * i <= t < 32 * i + k ensures IsUsed(ws, t) {
      SlotParts(i, t - 32 * i);
      assert Bit(ws[i], t - 32 * i);
    }
  }

  // ---------- The bitmap ----------

  class Bitmap {
    var slots: array<u32>
    var slotsSize: nat
    var freeSlotsCount: u32
    var lastFreed: nat

    /** The bits that mark_as_used has newly set; it does not count them in freeSlotsCount. */
    ghost var uncounted: nat

    constructor (slots: array<u32>)
      ensures this.slots == slots && slotsSize == 0 && freeSlotsCount == 0 && uncounted == 0
    {
      this.slots := slots;
      slotsSize, freeSlotsCount, lastFreed, uncounted := 0, 0, 0, 0;
    }

    /** The words are an array of at most 2^26, so that every slot number is a 31-bit int. */
    ghost predicate Valid()
      reads this, slots
    {
      && slotsSize == slots.Length && 32 * slotsSize <= INT_MAX
      && freeSlotsCount == U32(Free(slots[..]) + uncounted)
    }

    /** bitmap_init */
    method Init(slots: array<u32>)
      requires 0 < slots.Length && 32 * slots.Length <= INT_MAX
      modifies this, slots
      ensures this.slots == slots && Valid() && uncounted == 0 && freeSlotsCount == 32 * slots.Length
      ensures SlotsFree(slots[..])
    {
      this.slots := slots;
      slotsSize := slots.Length;
      freeSlotsCount := slots.Length * WORD_SIZE;
      lastFreed := 0;
      uncounted := 0;
      forall i | 0 <= i < slots.Length {
        slots[i] := 0;
      }
      FreeZero(slots[..]);
      U32Id(32 * slots.Length);
      forall t | 0 <= t < 32 * slots.Length ensures !IsUsed(slots[..], t) {
        ZeroBits(t % 32);
      }
    }

    /** bitmap_is_used */
    method IsSlotUsed(slot: nat) returns (b: bool)
      requires Valid() && slot < 32 * slotsSize
      ensures b <==> IsUsed(slots[..], slot)
    {
      b := Bit(slots[slot / WORD_SIZE], slot % WORD_SIZE);
    }

    /** bitmap_allocate_slot: the lowest free slot, or -1 exactly when all are used. */
    method AllocateSlot() returns (r: int)
      requires Valid()
      modifies this`freeSlotsCount, slots
      ensures Valid() && slots.Length == old(slots.Length)
      ensures r == -1 <==> AllUsed(old(slots[..]))
      ensures r == -1 ==> slots[..] == old(slots[..]) && freeSlotsCount == old(freeSlotsCount)
      ensures r != -1 ==> r >= 0 && LowestFree(old(slots[..]), r) && slots[..] == WithUsed(old(slots[..]), r)
      ensures r != -1 ==> freeSlotsCount == U32(old(freeSlotsCount) - 1) && r == First(old(slots[..]))
    {
      ghost var ws := slots[..];
      var i := 0;
      while i < slotsSize
        invariant i <= slotsSize && slots[..] == ws && freeSlotsCount == old(freeSlotsCount)
        invariant forall t :: 0 <= t < 32 * i ==> IsUsed(ws, t)
      {
        if slots[i] == WORD_MAX {
          forall t | 32 * i <= t < 32 * i + 32 ensures IsUsed(ws, t) {
            FullWord(ws, i, t);
          }
        } else {
          r := TakeLowest(i);
          LowestUnique(ws, r, First(ws));
          return;
        }
        i := i + 1;
      }
      return -1;
    }

    /** The lowest clear bit of word i, which is not full, is set. */
    method TakeLowest(i: nat) returns (r: int)
      requires Valid() && i < slotsSize && slots[i] != WORD_MAX && forall t :: 0 <= t < 32 * i ==> IsUsed(slots[..], t)
      modifies this`freeSlotsCount, slots
      ensures Valid() && r >= 0 && LowestFree(old(slots[..]), r) && slots[..] == WithUsed(old(slots[..]), r)
      ensures freeSlotsCount == U32(old(freeSlotsCount) - 1)
    {
      ghost var ws := slots[..];
      var w := slots[i];
      NotFull(w);
      var offset := CountTrailingZeroes(WORD_MAX - w);
      TrailingOnes(w, WORD_MAX - w, offset);
      SlotParts(i, offset);
      SetWordRange(w, offset);
      LowestIn(ws, i, offset);
      slots[i] := SetBit(w, offset);
      WithUsedMeans(ws, 32 * i + offset, 32 * i + offset);
      ClearSome(w, offset, 32);
      FreeSome(ws, i);
      assert slots[..] == WithUsed(ws, 32 * i + offset);
      CountDown(Free(ws) + uncounted);
      freeSlotsCount := U32(freeSlotsCount - 1);
      r := WORD_SIZE * i + offset;
    }

    /** bitmap_free_slot, without its debug assertion. */
    method FreeSlot(slot: nat)
      requires Valid() && slot < 32 * slotsSize
      modifies this`freeSlotsCount, slots
      ensures Valid() && slots[..] == WithFree(old(slots[..]), slot)
      ensures freeSlotsCount == if IsUsed(old(slots[..]),
                                          slot) then U32(old(freeSlotsCount) + 1) else old(freeSlotsCount)
    {
      ghost var ws := slots[..];
      var word, offset := slot / WORD_SIZE, slot % WORD_SIZE;
      var snapshot := slots[word];
      ClearWordRange(snapshot, offset);
      WithFreeMeans(ws, slot, slot);
      ClearedChanged(snapshot, offset);
      CountUp(Free(ws) + uncounted);
      slots[word] := ClearBit(snapshot, offset);
      assert slots[..] == WithFree(ws, slot);
      if slots[word] != snapshot {
        freeSlotsCount := U32(freeSlotsCount + 1);
      }
    }

    /**
     * bitmap_free_slot with its debug assertion, which compares a slot with the number of words; false stands for
     * the halt.
     */
    method FreeSlotAsserted(slot: nat) returns (ok: bool)
      requires Valid() && slot < 32 * slotsSize
      modifies this`freeSlotsCount, slots
      ensures Valid() && ok == (slot < slotsSize)
      ensures slots[..] == if ok then WithFree(old(slots[..]), slot) else old(slots[..])
      ensures freeSlotsCount ==
              if ok && IsUsed(old(slots[..]), slot) then U32(old(freeSlotsCount) + 1) else old(freeSlotsCount)
    {
      ok := slotsSize > slot;
      if ok {
        FreeSlot(slot);
      }
    }

    /**
     * n allocations, and the slot of the last one freed: in a debug build that halts unless n is at most the number
     * of slots that were free among the first slotsSize, and else the last allocation is undone.
     */
    method FreeLast(n: nat) returns (ok: bool)
      requires Valid() && 0 < n <= Free(slots[..])
      modifies this`freeSlotsCount, slots
      ensures Valid() && (ok <==> n <= FreeBelow(old(slots[..]), slotsSize))
      ensures slots[..] == After(old(slots[..]), if ok then n - 1 else n)
    {
      hide IsUsed, WithUsed, WithFree, Clear;
      ghost var ws := slots[..];
      var last := -1;
      var i := 0;
      while i < n
        invariant i <= n && Valid() && slots[..] == After(ws, i) && Free(slots[..]) == Free(ws) - i
        invariant i > 0 ==> 0 <= last < 32 * slotsSize && i <= |Run(ws, i)| && last == Run(ws, i)[i - 1]
        invariant i > 0 ==> LowestFree(After(ws, i - 1), last) && slots[..] == WithUsed(After(ws, i - 1), last)
      {
        ghost var was := slots[..];
        FreeNone(was);
        last := AllocateSlot();
        AfterStep(ws, i);
        WithUsedMeans(was, last, last);
        i := i + 1;
      }
      ok := FreeSlotAsserted(last);
      LastBelow(ws, n, slotsSize);
      Undo(After(ws, n - 1), last);
    }

    /** _enable_bit: slots behind the end are ignored. */
    method EnableBit(index: nat) returns (done: bool)
      requires Valid()
      modifies this`uncounted, slots
      ensures Valid() && done == (index < 32 * slotsSize)
      ensures slots[..] == if done then WithUsed(old(slots[..]), index) else old(slots[..])
      ensures uncounted == old(uncounted) + if done && !IsUsed(old(slots[..]), index) then 1 else 0
    {
      ghost var ws := slots[..];
      var word, bit := index / WORD_SIZE, index % WORD_SIZE;
      if word < slotsSize {
        SetWordRange(slots[word], bit);
        WithUsedMeans(ws, index, index);
        slots[word] := SetBit(slots[word], bit);
        assert slots[..] == WithUsed(ws, index);
        uncounted := uncounted + if IsUsed(ws, index) then 0 else 1;
        return true;
      }
      return false;
    }

    /**
     * bitmap_mark_as_used. The slots of the range become used, as far as they exist; freeSlotsCount stays, so it
     * is off by the slots that were free before.
     */
    method MarkAsUsed(firstSlot: u32, slotsToMark: u32)
      requires Valid() && firstSlot + slotsToMark < TWO_32
      modifies this`uncounted, slots
      ensures Valid()
      ensures forall t :: 0 <= t < 32 * slotsSize ==>
                (IsUsed(slots[..], t) <==> firstSlot <= t < firstSlot + slotsToMark || IsUsed(old(slots[..]), t))
      ensures uncounted - old(uncounted) == Free(old(slots[..])) - Free(slots[..])
    {
      ghost var ws := slots[..];
      U32Id(firstSlot + slotsToMark);
      var lastSlot := U32(firstSlot + slotsToMark);
      var i := firstSlot;
      while i < lastSlot
        invariant firstSlot <= i <= lastSlot && Valid()
        invariant forall t ::
                  0 <= t < 32 * slotsSize ==> (IsUsed(slots[..], t) <==> firstSlot <= t < i || IsUsed(ws, t))
        invariant uncounted - old(uncounted) == Free(ws) - Free(slots[..])
      {
        ghost var was := slots[..];
        var done := EnableBit(i);
        if i < 32 * slotsSize {
          WithUsedMeans(was, i, i);
          forall t | 0 <= t < 32 * slotsSize ensures IsUsed(slots[..], t) <==> t == i || IsUsed(was, t) {
            WithUsedMeans(was, i, t);
          }
        }
        i := i + 1;
      }
    }
  }

  // ---------- Runs ----------

  /** The slots that n allocations in a row return, as long as there are free ones. */
  ghost function Run(ws: seq<u32>, n: nat): seq<nat>
    decreases n
  {
    if n == 0 || AllUsed(ws) then []
    else
      var s := First(ws);
      [s] + Run(WithUsed(ws, s), n - 1)
  }

  /** The lowest free slot. */
  ghost function First(ws: seq<u32>): (s: nat)
    requires !AllUsed(ws)
    ensures LowestFree(ws, s)
  {
    var t :| 0 <= t < 32 * |ws| && !IsUsed(ws, t);
    FirstFrom(ws, 0, t)
  }

  ghost function FirstFrom(ws: seq<u32>, i: nat, t: nat): (s: nat)
    requires i <= t < 32 * |ws| && !IsUsed(ws, t) && forall k :: 0 <= k < i ==> IsUsed(ws, k)
    ensures LowestFree(ws, s)
    decreases t - i
  {
    if !IsUsed(ws, i) then i else FirstFrom(ws, i + 1, t)
  }

  lemma LowestUnique(ws: seq<u32>, s: nat, t: nat)
    requires LowestFree(ws, s) && LowestFree(ws, t)
    ensures s == t
  {
  }

  /** The state after n allocations. */
  ghost function After(ws: seq<u32>, n: nat): (r: seq<u32>)
    ensures |r| == |ws|
    decreases n
  {
    if n == 0 || AllUsed(ws) then ws else After(WithUsed(ws, First(ws)), n - 1)
  }

  /** The last allocation comes behind the run before. */
  lemma {:induction false} AfterStep(ws: seq<u32>, n: nat)
    requires n < Free(ws)
    ensures !AllUsed(After(ws, n)) && After(ws, n + 1) == WithUsed(After(ws, n), First(After(ws, n)))
    ensures Run(ws, n + 1) == Run(ws, n) + [First(After(ws, n))] && |Run(ws, n)| == n
    decreases n
  {
    FreeNone(ws);
    var s := First(ws);
    var w := WithUsed(ws, s);
    WithUsedMeans(ws, s, s);
    if n == 0 {
      assert Run(w, 0) == [] && After(w, 0) == w;
    } else {
      AfterStep(w, n - 1);
      assert Run(ws, n + 1) == [s] + Run(w, n) && Run(ws, n) == [s] + Run(w, n - 1);
    }
  }

  /** The number of free slots below m. */
  ghost function FreeBelow(ws: seq<u32>, m: nat): nat
    requires m <= 32 * |ws|
  {
    if m == 0 then 0 else FreeBelow(ws, m - 1) + if IsUsed(ws, m - 1) then 0 else 1
  }

  lemma {:induction false} BelowUsed(ws: seq<u32>, s: nat, m: nat)
    requires m <= 32 * |ws| && LowestFree(ws, s)
    ensures FreeBelow(WithUsed(ws, s), m) == FreeBelow(ws, m) - if s < m then 1 else 0
    ensures FreeBelow(ws, m) > 0 <==> s < m
  {
    hide WithUsed, IsUsed;
    if m > 0 {
      BelowUsed(ws, s, m - 1);
      WithUsedMeans(ws, s, m - 1);
    }
  }

  /** The n-th slot handed out lies below m exactly when at least n slots below m were free. */
  lemma {:induction false} LastBelow(ws: seq<u32>, n: nat, m: nat)
    requires 0 < n <= Free(ws) && m <= 32 * |ws|
    ensures |Run(ws, n)| == n && (Run(ws, n)[n - 1] < m <==> n <= FreeBelow(ws, m))
    decreases n
  {
    hide WithUsed, IsUsed, Free, FreeBelow;
    FreeNone(ws);
    RunMeans(ws, n);
    var s := First(ws);
    WithUsedMeans(ws, s, s);
    BelowUsed(ws, s, m);
    if n == 1 {
      assert Run(WithUsed(ws, s), 0) == [];
    } else {
      LastBelow(WithUsed(ws, s), n - 1, m);
    }
  }

  /** Freeing the slot just taken undoes the allocation. */
  lemma Undo(ws: seq<u32>, s: nat)
    requires s < 32 * |ws| && !IsUsed(ws, s)
    ensures WithFree(WithUsed(ws, s), s) == ws
  {
    ClearSetBit(ws[s / 32], s % 32);
  }

  lemma {:induction false} ClearSetBit(w: nat, k: nat)
    requires !Bit(w, k)
    ensures ClearBit(SetBit(w, k), k) == w
  {
    if k > 0 {
      ClearSetBit(w / 2, k - 1);
    }
  }

  lemma {:induction false} FreshBelow(ws: seq<u32>, m: nat)
    requires m <= 32 * |ws| && SlotsFree(ws)
    ensures FreeBelow(ws, m) == m
  {
    if m > 0 {
      FreshBelow(ws, m - 1);
    }
  }

  /**
   * After n allocations from a fresh bitmap, the slot just returned is n - 1 and meets the assertion of
   * bitmap_free_slot
   * exactly when n is at most the number of words, although there are 32 slots per word.
   */
  lemma FreeAssertionExact(ws: seq<u32>, n: nat)
    requires SlotsFree(ws) && 0 < n <= 32 * |ws|
    ensures |Run(ws, n)| == n && Run(ws, n)[n - 1] == n - 1
    ensures Run(ws, n)[n - 1] < |ws| <==> n <= |ws|
  {
    FreshFree(ws);
    FreshBelow(ws, n);
    FreshBelow(ws, n - 1);
    LastBelow(ws, n, n);
    LastBelow(ws, n, n - 1);
  }

  lemma {:induction false} FreshFree(ws: seq<u32>)
    requires SlotsFree(ws)
    ensures Free(ws) == 32 * |ws|
  {
    if ws != [] {
      forall t | 0 <= t < 32 * |ws[1..]| ensures !IsUsed(ws[1..], t) {
        UsedTail(ws, t);
      }
      FreshFree(ws[1..]);
      forall k | 0 <= k < 32 ensures !Bit(ws[0], k) {
        assert !IsUsed(ws, k);
      }
      ClearFull(ws[0], 32);
    }
  }

  lemma {:induction false} ClearFull(w: nat, n: nat)
    requires forall k :: 0 <= k < n ==> !Bit(w, k)
    ensures Clear(w, n) == n
  {
    if n > 0 {
      assert !Bit(w, 0);
      forall k | 0 <= k < n - 1 ensures !Bit(w / 2, k) {
        assert !Bit(w, k + 1);
      }
      ClearFull(w / 2, n - 1);
    }
  }

  /** Every run hands out the free slots in increasing order, each once, and stops exactly when none is left. */
  lemma {:induction false} RunMeans(ws: seq<u32>, n: nat)
    ensures |Run(ws, n)| == if n <= Free(ws) then n else Free(ws)
    ensures forall i :: 0 <= i < |Run(ws, n)| ==> Run(ws, n)[i] < 32 * |ws| && !IsUsed(ws, Run(ws, n)[i])
    ensures forall i, j :: 0 <= i < j < |Run(ws, n)| ==> Run(ws, n)[i] < Run(ws, n)[j]
    decreases n
  {
    FreeNone(ws);
    if n > 0 && !AllUsed(ws) {
      var s := First(ws);
      var w := WithUsed(ws, s);
      WithUsedMeans(ws, s, s);
      RunMeans(w, n - 1);
      var r := Run(w, n - 1);
      forall i | 0 <= i < |r| ensures s < r[i] && !IsUsed(ws, r[i]) {
        assert !IsUsed(w, r[i]);
        WithUsedMeans(ws, s, r[i]);
      }
    }
  }

  lemma {:induction false} ClearNone(w: nat, n: nat, k: nat)
    requires k < n && Clear(w, n) == 0
    ensures Bit(w, k)
  {
    if k > 0 {
      ClearNone(w / 2, n - 1, k - 1);
    }
  }

  lemma {:induction false} ClearAll(w: nat, n: nat)
    requires forall k :: 0 <= k < n ==> Bit(w, k)
    ensures Clear(w, n) == 0
  {
    if n > 0 {
      assert Bit(w, 0);
      forall k | 0 <= k < n - 1 ensures Bit(w / 2, k) {
        assert Bit(w, k + 1);
      }
      ClearAll(w / 2, n - 1);
    }
  }

  lemma UsedTail(ws: seq<u32>, t: nat)
    requires ws != [] && t < 32 * |ws[1..]|
    ensures IsUsed(ws[1..], t) <==> IsUsed(ws, t + 32)
  {
    SlotParts(t / 32 + 1, t % 32);
  }

  lemma {:induction false} FreeNone(ws: seq<u32>)
    ensures Free(ws) == 0 <==> AllUsed(ws)
  {
    if ws != [] {
      FreeNone(ws[1..]);
      if Free(ws) == 0 {
        forall t | 0 <= t < 32 * |ws| ensures IsUsed(ws, t) {
          if t < 32 {
            ClearNone(ws[0], 32, t);
          } else {
            UsedTail(ws, t - 32);
          }
        }
      }
      if AllUsed(ws) {
        forall t | 0 <= t < 32 * |ws[1..]| ensures IsUsed(ws[1..], t) {
          UsedTail(ws, t);
        }
        forall k | 0 <= k < 32 ensures Bit(ws[0], k) {
          assert IsUsed(ws, k);
        }
        ClearAll(ws[0], 32);
      }
    }
  }
}
