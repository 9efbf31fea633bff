/** Flattening of a DMA scatter list into the user descriptor list of one DDP context
    (src/txgbe_fcoe.c, the loop of txgbe_fcoe_ddp_setup). */
module FcoeFlatten {
  import Bits
  import opened Wrappers

  const BUFF_LEN := 4096
  const BUFFCNT_MAX := 256

  /** One mapped scatter entry: DMA address and length. */
  datatype Segment = Segment(addr: nat, len: nat)

  datatype Outcome =
    | Built(count: nat, firstOff: nat, lastSize: nat)
    | TooManyBuffers
    | Misaligned
    | NoRoomForExtra

  // ----- what the list means

  function Total(sgl: seq<Segment>): nat {
    if sgl == [] then 0 else Total(sgl[..|sgl| - 1]) + sgl[|sgl| - 1].len
  }

  /** DMA address of byte `k` of the concatenated list. */
  function ByteAddr(sgl: seq<Segment>, k: nat): nat
    requires k < Total(sgl)
  {
    var front := sgl[..|sgl| - 1];
    if k < Total(front) then ByteAddr(front, k)
    else sgl[|sgl| - 1].addr + (k - Total(front))
  }

  /** Offset of the first byte within its 4 KB page; 0 for a list without bytes. */
  function FirstOff(sgl: seq<Segment>): nat {
    if Total(sgl) == 0 then 0 else ByteAddr(sgl, 0) % BUFF_LEN
  }

  /** Entry `i` may join its neighbours: it starts on a page unless it holds the first byte, and
      it ends on a page unless it is the last entry of the list. */
  predicate Joins(sgl: seq<Segment>, i: nat)
    requires i < |sgl|
  {
    sgl[i].len > 0 ==>
      && (Total(sgl[..i]) > 0 ==> sgl[i].addr % BUFF_LEN == 0)
      && (i < |sgl| - 1 ==> (sgl[i].addr + sgl[i].len) % BUFF_LEN == 0)
  }

  predicate Aligned(sgl: seq<Segment>) {
    forall i | 0 <= i < |sgl| :: Joins(sgl, i)
  }

  /** Buffers needed, counting the dummy buffer added when the data ends on a page boundary. */
  function Need(sgl: seq<Segment>): nat {
    if Total(sgl) == 0 then 0 else (FirstOff(sgl) + Total(sgl)) / BUFF_LEN + 1
  }

  /** Where the device finds byte `k`, given the buffer list and the offset into the first. */
  function Translate(udl: seq<nat>, firstOff: nat, k: nat): nat
    requires (firstOff + k) / BUFF_LEN < |udl|
  {
    udl[(firstOff + k) / BUFF_LEN] + (firstOff + k) % BUFF_LEN
  }

  /** The first `done` bytes of the list are reachable through `udl`. */
  ghost predicate Placed(udl: seq<nat>, firstOff: nat, sgl: seq<Segment>, done: nat)
    requires done <= Total(sgl)
  {
    forall k | 0 <= k < done ::
      (firstOff + k) / BUFF_LEN < |udl| && ByteAddr(sgl, k) == Translate(udl, firstOff, k)
  }

  // ----- prefixes of the list

  lemma {:induction false} PrefixTotal(sgl: seq<Segment>, i: nat)
    requires i <= |sgl|
    ensures Total(sgl[..i]) <= Total(sgl)
    ensures i < |sgl| ==> Total(sgl[..i + 1]) == Total(sgl[..i]) + sgl[i].len
    decreases |sgl|
  {
    if i < |sgl| {
      var front := sgl[..|sgl| - 1];
      assert front[..i] == sgl[..i];
      PrefixTotal(front, i);
      assert sgl[..i + 1][..i] == sgl[..i];
    } else {
      assert sgl[..i] == sgl;
    }
  }

  lemma {:induction false} PrefixByte(sgl: seq<Segment>, i: nat, k: nat)
    requires i <= |sgl| && k < Total(sgl[..i])
    ensures k < Total(sgl) && ByteAddr(sgl[..i], k) == ByteAddr(sgl, k)
    decreases |sgl|
  {
    PrefixTotal(sgl, i);
    if i < |sgl| {
      var front := sgl[..|sgl| - 1];
      assert front[..i] == sgl[..i];
      PrefixByte(front, i, k);
    } else {
      assert sgl[..i] == sgl;
    }
  }

  /** Byte `c` of entry `i`, seen from the whole list. */
  lemma EntryByte(sgl: seq<Segment>, i: nat, c: nat)
    requires i < |sgl| && c < sgl[i].len
    ensures Total(sgl[..i]) + c < Total(sgl)
    ensures ByteAddr(sgl, Total(sgl[..i]) + c) == sgl[i].addr + c
  {
    PrefixTotal(sgl, i);
    PrefixTotal(sgl, i + 1);
    assert sgl[..i + 1][..i] == sgl[..i];
    PrefixByte(sgl, i + 1, Total(sgl[..i]) + c);
  }

  /** One more buffer extends the placed range by the bytes it holds. */
  lemma PlaceBuffer(udl: seq<nat>, firstOff: nat, sgl: seq<Segment>, i: nat, c: nat, n: nat, page: nat)
    requires i < |sgl| && c + n <= sgl[i].len
    requires Total(sgl[..i]) + sgl[i].len <= Total(sgl)
    requires var done := Total(sgl[..i]) + c;
      && Placed(udl, firstOff, sgl, done)
      && |udl| * BUFF_LEN <= firstOff + done
      && firstOff + done + n <= (|udl| + 1) * BUFF_LEN
      && page + (firstOff + done - |udl| * BUFF_LEN) == sgl[i].addr + c
    ensures Placed(udl + [page], firstOff, sgl, Total(sgl[..i]) + c + n)
  {
    var done := Total(sgl[..i]) + c;
    var udl' := udl + [page];
    forall k | 0 <= k < done + n
      ensures (firstOff + k) / BUFF_LEN < |udl'| && ByteAddr(sgl, k) == Translate(udl', firstOff, k)
    {
      if k < done {
        var a := ByteAddr(sgl, k);
        assert udl'[(firstOff + k) / BUFF_LEN] == udl[(firstOff + k) / BUFF_LEN];
      } else {
        EntryByte(sgl, i, k - Total(sgl[..i]));
        assert (firstOff + k) / BUFF_LEN == |udl|;
      }
    }
  }

  // ----- the loop

  /** Bytes placed so far, and the arithmetic of the last buffer filled. */
  ghost predicate Tally(sgl: seq<Segment>, udl: seq<nat>, done: nat, firstOff: nat, thisOff: nat, thisLen: nat)
  {
    && done <= Total(sgl)
    && |udl| <= BUFFCNT_MAX
    && Placed(udl, firstOff, sgl, done)
    && (forall b | 0 <= b < |udl| :: udl[b] % BUFF_LEN == 0)
    && (done == 0 ==> udl == [] && firstOff == 0 && thisOff == 0 && thisLen == 0)
    && (done > 0 ==>
          && firstOff == FirstOff(sgl)
          && udl != []
          && 0 < thisOff + thisLen <= BUFF_LEN
          && firstOff + done == (|udl| - 1) * BUFF_LEN + thisOff + thisLen)
  }

  /** State at the head of the entry loop. */
  ghost predicate AtEntry(sgl: seq<Segment>, udl: seq<nat>, i: nat, firstOff: nat, thisOff: nat, thisLen: nat)
  {
    && i <= |sgl|
    && var done := Total(sgl[..i]);
    && Tally(sgl, udl, done, firstOff, thisOff, thisLen)
    && (forall m | 0 <= m < i :: Joins(sgl, m))
    && (0 < done && i < |sgl| ==> thisOff + thisLen == BUFF_LEN)
  }

  /** State at the head of the buffer loop, with `c` bytes of entry `i` consumed. */
  ghost predicate InEntry(sgl: seq<Segment>, udl: seq<nat>, i: nat, c: nat, firstOff: nat, thisOff: nat, thisLen: nat)
  {
    && i < |sgl| && c <= sgl[i].len
    && var before := Total(sgl[..i]);
    && before + sgl[i].len <= Total(sgl)
    && Tally(sgl, udl, before + c, firstOff, thisOff, thisLen)
    && (forall m | 0 <= m < i :: Joins(sgl, m))
    && (c > 0 ==> before > 0 ==> sgl[i].addr % BUFF_LEN == 0)
    && (0 < c < sgl[i].len ==> (sgl[i].addr + c) % BUFF_LEN == 0)
    && (0 < before + c && (c < sgl[i].len || i < |sgl| - 1) ==> thisOff + thisLen == BUFF_LEN)
    && (c == sgl[i].len ==> Joins(sgl, i))
  }

  lemma EnterEntry(sgl: seq<Segment>, udl: seq<nat>, i: nat, firstOff: nat, thisOff: nat, thisLen: nat)
    requires AtEntry(sgl, udl, i, firstOff, thisOff, thisLen) && i < |sgl|
    ensures InEntry(sgl, udl, i, 0, firstOff, thisOff, thisLen)
  {
    PrefixTotal(sgl, i);
    PrefixTotal(sgl, i + 1);
  }

  lemma LeaveEntry(sgl: seq<Segment>, udl: seq<nat>, i: nat, firstOff: nat, thisOff: nat, thisLen: nat)
    requires i < |sgl| && InEntry(sgl, udl, i, sgl[i].len, firstOff, thisOff, thisLen)
    ensures AtEntry(sgl, udl, i + 1, firstOff, thisOff, thisLen)
  {
    PrefixTotal(sgl, i);
  }

  /** Filling one buffer that passes the driver's tests keeps the state. */
  lemma FillStep(sgl: seq<Segment>, udl: seq<nat>, i: nat, c: nat, firstOff: nat, thisOff: nat, thisLen: nat,
                 off: nat, n: nat)
    requires InEntry(sgl, udl, i, c, firstOff, thisOff, thisLen) && c < sgl[i].len && |udl| < BUFFCNT_MAX
    requires off == (sgl[i].addr + c) % BUFF_LEN
    requires n == if BUFF_LEN - off < sgl[i].len - c then BUFF_LEN - off else sgl[i].len - c
    requires udl == [] || off == 0
    requires (i == |sgl| - 1 && n == sgl[i].len - c) || n + off == BUFF_LEN
    ensures InEntry(sgl, udl + [sgl[i].addr + c - off], i, c + n, if udl == [] then off else firstOff, off, n)
  {
    hide ByteAddr, Placed, Translate;
    var first := if udl == [] then off else firstOff;
    var page := sgl[i].addr + c - off;
    EntryByte(sgl, i, c);
    PageEnds(sgl[i].addr + c, off, n);
    if udl == [] {
      assert first == FirstOff(sgl);
    }
    PlaceBuffer(udl, first, sgl, i, c, n, page);
  }

  lemma PageEnds(x: nat, off: nat, n: nat)
    requires off == x % BUFF_LEN
    ensures x >= off && (x - off) % BUFF_LEN == 0
    ensures n + off == BUFF_LEN ==> (x + n) % BUFF_LEN == 0
  {
    Bits.DivModDef(x, BUFF_LEN);
    var q := x / BUFF_LEN;
    Bits.DivModUnique(x - off, BUFF_LEN, q, 0);
    if n + off == BUFF_LEN {
      Bits.DivModUnique(x + n, BUFF_LEN, q + 1, 0);
    }
  }

  /** Each of the three tests in the loop rejects only a list that cannot be laid out. */
  lemma RejectStep(sgl: seq<Segment>, udl: seq<nat>, i: nat, c: nat, firstOff: nat, thisOff: nat, thisLen: nat,
                   off: nat, n: nat)
    requires InEntry(sgl, udl, i, c, firstOff, thisOff, thisLen) && c < sgl[i].len
    requires off == (sgl[i].addr + c) % BUFF_LEN
    requires n == if BUFF_LEN - off < sgl[i].len - c then BUFF_LEN - off else sgl[i].len - c
    ensures |udl| >= BUFFCNT_MAX ==> Rejects(sgl, TooManyBuffers)
    ensures udl != [] && off != 0 ==> Rejects(sgl, Misaligned)
    ensures !(i == |sgl| - 1 && n == sgl[i].len - c) && n + off != BUFF_LEN ==> Rejects(sgl, Misaligned)
  {
    if udl != [] && off != 0 {
      assert !Joins(sgl, i);
    }
    if !(i == |sgl| - 1 && n == sgl[i].len - c) && n + off != BUFF_LEN {
      assert n == sgl[i].len - c && n + off < BUFF_LEN;
      assert (sgl[i].addr + sgl[i].len) % BUFF_LEN == n + off;
      assert !Joins(sgl, i);
    }
  }

  /** The reason given for refusing a list is true of it. */
  ghost predicate Rejects(sgl: seq<Segment>, r: Outcome) {
    match r
    case Built(_, _, _) => false
    case TooManyBuffers => Need(sgl) > BUFFCNT_MAX && FirstOff(sgl) + Total(sgl) > BUFFCNT_MAX * BUFF_LEN
    case Misaligned => !Aligned(sgl)
    case NoRoomForExtra => Need(sgl) > BUFFCNT_MAX && FirstOff(sgl) + Total(sgl) == BUFFCNT_MAX * BUFF_LEN
  }

  /** What a successful layout promises the hardware. */
  ghost predicate Sound(sgl: seq<Segment>, udl: seq<nat>, extra: nat, r: Outcome)
    requires r.Built?
  {
    && r.count == Need(sgl) <= BUFFCNT_MAX
    && r.count == |udl|
    && r.firstOff == FirstOff(sgl)
    && Placed(udl, r.firstOff, sgl, Total(sgl))
    && (Total(sgl) > 0 ==>
          && 1 <= r.lastSize < BUFF_LEN
          && (forall b | 0 <= b < r.count - 1 :: udl[b] % BUFF_LEN == 0)
          && if (r.firstOff + Total(sgl)) % BUFF_LEN == 0
             then r.firstOff + Total(sgl) == (r.count - 1) * BUFF_LEN && udl[r.count - 1] == extra && r.lastSize == 1
             else r.firstOff + Total(sgl) == (r.count - 1) * BUFF_LEN + r.lastSize && udl[r.count - 1] % BUFF_LEN == 0)
    && (Total(sgl) == 0 ==> r.count == r.lastSize == 0)
  }

  /** The list is exhausted: what the last buffer's size says, and the layout if no buffer is added. */
  lemma Finish(sgl: seq<Segment>, udl: seq<nat>, extra: nat, firstOff: nat, thisOff: nat, thisLen: nat)
    requires AtEntry(sgl, udl, |sgl|, firstOff, thisOff, thisLen)
    ensures Aligned(sgl)
    ensures thisOff + thisLen == BUFF_LEN ==>
      FirstOff(sgl) + Total(sgl) == |udl| * BUFF_LEN && Need(sgl) == |udl| + 1
    ensures thisOff + thisLen != BUFF_LEN ==>
      && Sound(sgl, udl, extra, Built(|udl|, firstOff, thisOff + thisLen))
      && FirstOff(sgl) + Total(sgl) < BUFFCNT_MAX * BUFF_LEN
  {
    hide ByteAddr, Placed, Translate, Joins;
    assert sgl[..|sgl|] == sgl;
    if Total(sgl) > 0 {
      var last := thisOff + thisLen;
      if last == BUFF_LEN {
        Bits.DivModUnique(firstOff + Total(sgl), BUFF_LEN, |udl|, 0);
      } else {
        Bits.DivModUnique(firstOff + Total(sgl), BUFF_LEN, |udl| - 1, last);
      }
    }
  }

  /** The data ends on a page boundary and there is room for the dummy buffer. */
  lemma FinishExtra(sgl: seq<Segment>, udl: seq<nat>, extra: nat, firstOff: nat, thisOff: nat, thisLen: nat)
    requires AtEntry(sgl, udl, |sgl|, firstOff, thisOff, thisLen)
    requires thisOff + thisLen == BUFF_LEN && |udl| < BUFFCNT_MAX
    ensures Sound(sgl, udl + [extra], extra, Built(|udl| + 1, firstOff, 1))
  {
    assert sgl[..|sgl|] == sgl;
    Finish(sgl, udl, extra, firstOff, thisOff, thisLen);
    var udl' := udl + [extra];
    forall k | 0 <= k < Total(sgl)
      ensures (firstOff + k) / BUFF_LEN < |udl'| && ByteAddr(sgl, k) == Translate(udl', firstOff, k)
    {
      var a := ByteAddr(sgl, k);
      assert ByteAddr(sgl, k) == Translate(udl, firstOff, k);
      assert udl'[(firstOff + k) / BUFF_LEN] == udl[(firstOff + k) / BUFF_LEN];
    }
    assert forall b | 0 <= b < |udl| :: udl'[b] == udl[b];
  }

  /** The buffer loop over one entry: state carried in and out is the driver's j, firstoff, thisoff
      and thislen. */
  method FillEntry(sgl: seq<Segment>, i: nat, udl: array<nat>, j0: nat, first0: nat, off0: nat, len0: nat)
    returns (fail: Option<Outcome>, j: nat, firstOff: nat, thisOff: nat, thisLen: nat)
    requires udl.Length == BUFFCNT_MAX && j0 <= BUFFCNT_MAX && i < |sgl|
    requires InEntry(sgl, udl[..j0], i, 0, first0, off0, len0)
    modifies udl
    ensures fail.None? ==> j <= BUFFCNT_MAX && InEntry(sgl, udl[..j], i, sgl[i].len, firstOff, thisOff, thisLen)
    ensures fail.Some? ==> fail.value != NoRoomForExtra && Rejects(sgl, fail.value)
  {
    hide InEntry, Rejects;
    var addr: nat, len: nat := sgl[i].addr, sgl[i].len;
    j, firstOff, thisOff, thisLen := j0, first0, off0, len0;
    ghost var list := udl[..j];
    while len != 0
      invariant j <= BUFFCNT_MAX && len <= sgl[i].len
      invariant addr == sgl[i].addr + (sgl[i].len - len)
      invariant list == udl[..j]
      invariant InEntry(sgl, list, i, sgl[i].len - len, firstOff, thisOff, thisLen)
    {
      ghost var c, was, wasLen := sgl[i].len - len, thisOff, thisLen;
      thisOff := addr % BUFF_LEN;
      Bits.DivModDef(addr, BUFF_LEN);
      thisLen := if BUFF_LEN - thisOff < len then BUFF_LEN - thisOff else len;
      RejectStep(sgl, list, i, c, firstOff, was, wasLen, thisOff, thisLen);
      if j >= BUFFCNT_MAX {
        fail := Some(TooManyBuffers);
        return;
      }
      if j != 0 && thisOff != 0 {
        fail := Some(Misaligned);
        return;
      }
      if (i != |sgl| - 1 || thisLen != len) && thisLen + thisOff != BUFF_LEN {
        fail := Some(Misaligned);
        return;
      }
      FillStep(sgl, list, i, c, firstOff, was, wasLen, thisOff, thisLen);
      udl[j] := addr - thisOff;
      if j == 0 {
        firstOff := thisOff;
      }
      len := len - thisLen;
      addr := addr + thisLen;
      list := list + [udl[j]];
      j := j + 1;
    }
    fail := None;
  }

  lemma StartEntries(sgl: seq<Segment>, udl: seq<nat>)
    requires udl == []
    ensures AtEntry(sgl, udl, 0, 0, 0, 0)
  {}

  /** txgbe_fcoe_ddp_setup's loop: fills `udl` in place and accepts exactly the lists whose entries
      join on page boundaries and that need at most 256 buffers. */
  method Flatten(sgl: seq<Segment>, extra: nat, udl: array<nat>) returns (r: Outcome)
    requires udl.Length == BUFFCNT_MAX
    modifies udl
    ensures r.Built? <==> Aligned(sgl) && Need(sgl) <= BUFFCNT_MAX
    ensures r.Built? ==> r.count <= BUFFCNT_MAX && Sound(sgl, udl[..r.count], extra, r)
    ensures r.NoRoomForExtra? <==> Aligned(sgl) && FirstOff(sgl) + Total(sgl) == BUFFCNT_MAX * BUFF_LEN
    ensures !r.Built? ==> Rejects(sgl, r)
  {
    hide InEntry, AtEntry, Aligned, Total, FirstOff;
    var j: nat, i: nat := 0, 0;
    StartEntries(sgl, udl[..0]);
    var firstOff: nat, thisOff: nat, thisLen: nat := 0, 0, 0;
    while i < |sgl|
      invariant j <= BUFFCNT_MAX && i <= |sgl|
      invariant AtEntry(sgl, udl[..j], i, firstOff, thisOff, thisLen)
    {
      EnterEntry(sgl, udl[..j], i, firstOff, thisOff, thisLen);
      var fail;
      fail, j, firstOff, thisOff, thisLen := FillEntry(sgl, i, udl, j, firstOff, thisOff, thisLen);
      if fail.Some? {
        return fail.value;
      }
      LeaveEntry(sgl, udl[..j], i, firstOff, thisOff, thisLen);
      i := i + 1;
    }
    Finish(sgl, udl[..j], extra, firstOff, thisOff, thisLen);
    var lastSize := thisOff + thisLen;
    if lastSize == BUFF_LEN {
      if j >= BUFFCNT_MAX {
        return NoRoomForExtra;
      }
      FinishExtra(sgl, udl[..j], extra, firstOff, thisOff, thisLen);
      ghost var list := udl[..j];
      udl[j] := extra;
      j := j + 1;
      lastSize := 1;
      assert udl[..j] == list + [extra];
    }
    r := Built(j, firstOff, lastSize);
  }
}
