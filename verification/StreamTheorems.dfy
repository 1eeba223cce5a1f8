/** The ring is indistinguishable from a flat sequential reader exactly when it has one bank or
    3 to 256 of them. */
module StreamTheorems {
  import opened Common
  import opened StreamRing

  /** The flat reader: `n` sectors of the disc from `pos` on. */
  function Flat(disc: Disc, pos: nat, n: nat): (s: seq<Cell>)
    ensures |s| == n
  {
    seq(n, i requires 0 <= i < n => Some(DiscAt(disc, pos + i)))
  }

  /** These are the sectors of the disc in their order. */
  lemma FlatIsDisc(disc: Disc, pos: nat, n: nat, i: nat)
    requires i < n
    ensures Flat(disc, pos, n)[i] == Some(disc((pos + i) % 0x1_0000_0000))
  {
    assert Flat(disc, pos, n)[i] == Some(DiscAt(disc, pos + i));
  }

  /** Sectors of the current pair of banks that were consumed before the current bank. */
  function Consumed(r: Ring): nat { if r.bankID % 2 == 1 then r.maxBankSectors else 0 }

  /** Start of the pair of banks (or of the last single bank) being read out. */
  function PairStart(r: Ring): int { r.bankPtr - Consumed(r) }

  /** Sectors fetched but not yet delivered. */
  function Available(r: Ring): int { r.stbufmax - Consumed(r) - r.offset }

  /** Ring position of the next sector to deliver. */
  function Head(r: Ring): int { r.bankPtr + r.offset }

  /** The ring `c` holds the disc from `pos` on, starting at `head`, wrapping round, and ending
      just before `pair`. */
  predicate Holds(c: seq<Cell>, pair: int, head: int, disc: Disc, pos: nat) {
    && (forall x :: 0 <= x < |c| && head <= x ==> c[x] == Some(DiscAt(disc, pos + (x - head))))
    && (forall x :: 0 <= x < |c| && x < pair ==> c[x] == Some(DiscAt(disc, pos + (|c| - head) + x)))
  }

  predicate Unfilled(c: seq<Cell>) { forall x :: 0 <= x < |c| ==> c[x] == None }

  /** The outstanding refill targets none of the banks being read out; with two banks, it targets both,
      and neither holds anything yet. */
  predicate PendingApart(r: Ring) {
    r.stbankmax == 1 || r.pending.None? ||
    var f := r.pending.value;
    if r.stbankmax == 2 then f.base == 0 && f.count == r.stbufmax && Unfilled(r.cells)
    else f.base + f.count <= PairStart(r) || PairStart(r) + 2 * r.maxBankSectors <= f.base
  }

  /** What is in step with a flat reader about to deliver `pos`, even when a bank has run out. */
  predicate Aligned(r: Ring, disc: Disc, pos: nat) {
    && r.stLSN == U32(pos + Available(r))
    && Holds(Complete(r, disc).cells, PairStart(r), Head(r), disc, pos)
    && PendingApart(r)
  }

  /** The invariant of the loop. */
  predicate InStep(r: Ring, disc: Disc, pos: nat) {
    Shape(r) && r.maxBankSectors > 0 && Aligned(r, disc, pos)
  }

  /** The same between the end of a bank and the choice of the next one. */
  predicate Spent(r: Ring, disc: Disc, pos: nat) {
    Shape(r.(offset := 0)) && r.offset == r.maxBankSectors > 0 && Aligned(r, disc, pos)
  }

  lemma U32Shift(a: int, b: int)
    ensures U32(U32(a) + b) == U32(a + b)
  {
  }

  lemma ReadyInStep(r: Ring, disc: Disc, pos: nat, done: bool)
    requires InStep(r, disc, pos)
    ensures var ready := Ready(r, disc, done);
            && InStep(ready, disc, pos)
            && (ready.stbankmax == 1 ==> ready.pending.None?)
            && ready == r.(cells := ready.cells, pending := ready.pending)
  {
    hide DiscAt;
  }

  /** A refill leaves every sector outside its target as it would have become anyway. */
  lemma RefillLands(r: Ring, disc: Disc, f: Refill, x: int)
    requires 0 <= x < |r.cells|
    ensures Complete(StartRefill(r, disc, f), disc).cells[x] ==
            if Covers(f, x) then Some(DiscAt(disc, f.lsn + (x - f.base))) else Complete(r, disc).cells[x]
  {
  }

  /** A refill of everything consumed since `pair` continues the ring from its head on. */
  lemma RefillHolds(c: seq<Cell>, c': seq<Cell>, f: Refill, head: int, disc: Disc, pos: nat)
    requires |c'| == |c| && 0 <= f.base <= head <= |c| && f.base + f.count == head
    requires Holds(c, f.base, head, disc, pos)
    requires f.lsn == U32(pos + |c| - f.count)
    requires forall x :: 0 <= x < |c| ==>
               c'[x] == if Covers(f, x) then Some(DiscAt(disc, f.lsn + (x - f.base))) else c[x]
    ensures Holds(c', head, head, disc, pos)
    ensures head == |c| ==> Holds(c', 0, 0, disc, pos)
  {
    forall x | Covers(f, x)
      ensures DiscAt(disc, f.lsn + (x - f.base)) == DiscAt(disc, pos + (|c| - head) + x)
    {
      U32Shift(pos + |c| - f.count, x - f.base);
    }
  }

  /** Leaving a bank that is refilled, alone or with the one before it. */
  lemma LeaveRefilledBank(r: Ring, disc: Disc, pos: nat, f: Refill)
    requires Spent(r, disc, pos)
    requires f == Refill(r.stLSN, PairStart(r), r.maxBankSectors + Consumed(r))
    requires 0 <= PairStart(r) && Head(r) <= r.stbufmax
    ensures var c := Complete(StartRefill(r, disc, f), disc).cells;
            && |c| == |r.cells|
            && Holds(c, Head(r), Head(r), disc, pos)
            && (Head(r) == |c| ==> Holds(c, 0, 0, disc, pos))
    ensures U32(r.stLSN + f.count) == U32(pos + r.stbufmax)
  {
    var c, c' := Complete(r, disc).cells, Complete(StartRefill(r, disc, f), disc).cells;
    forall x | 0 <= x < |c'|
      ensures c'[x] == if Covers(f, x) then Some(DiscAt(disc, f.lsn + (x - f.base))) else c[x]
    {
      RefillLands(r, disc, f, x);
    }
    RefillHolds(c, c', f, Head(r), disc, pos);
    U32Shift(pos + Available(r), f.count);
  }

  /** After an odd bank the next one starts a fresh pair, right behind it or back at 0. */
  lemma NextPair(r: Ring)
    requires Shape(r.(offset := 0)) && r.bankID % 2 == 1
    requires 3 <= r.stbankmax && (r.stbankmax <= 256 || r.bankID < 255)
    ensures var n, id := r.maxBankSectors, U8(r.bankID + 1);
            var next := if id >= r.stbankmax then 0 else id;
            && next % 2 == 0
            && (if next != 0 then BankStart(next, n) == r.bankPtr + n
                else r.bankPtr + n == r.stbufmax && 2 * n <= r.bankPtr - n)
  {
    if r.bankID + 1 == r.stbankmax {
      BanksApart(1, r.bankID - 1, r.maxBankSectors);
    }
  }

  /** From `r` to `r'` the refill `f` was begun over everything consumed since the pair started, and
      the next pair begins behind it, or at the start of the ring. */
  predicate Refilled(r: Ring, r': Ring, disc: Disc, f: Refill) {
    && 0 <= PairStart(r) && Head(r) <= r.stbufmax
    && f == Refill(r.stLSN, PairStart(r), r.maxBankSectors + Consumed(r))
    && r'.stLSN == U32(r.stLSN + f.count)
    && PairStart(r') == Head(r')
    && (Head(r') == Head(r) || (Head(r') == 0 && Head(r) == |r.cells|))
    && Available(r') == r.stbufmax
    && PendingApart(r')
    && Complete(r', disc).cells == Complete(StartRefill(r, disc, f), disc).cells
  }

  lemma RefilledInStep(r: Ring, disc: Disc, pos: nat, f: Refill)
    requires Spent(r, disc, pos) && Refilled(r, BankDone(r, disc), disc, f)
    ensures InStep(BankDone(r, disc), disc, pos)
  {
    hide Holds, DiscAt, Complete, StartRefill, BankStart, PendingApart, DueRefill;
    BankDoneKeepsShape(r, disc);
    LeaveRefilledBank(r, disc, pos, f);
    hide Shape;
  }

  lemma OddBankRefills(r: Ring, disc: Disc) returns (f: Refill)
    requires Shape(r.(offset := 0)) && r.offset == r.maxBankSectors > 0 && r.bankID % 2 == 1
    requires r.stbankmax != 2 && (r.stbankmax <= 256 || r.bankID < 255)
    ensures Refilled(r, BankDone(r, disc), disc, f)
  {
    hide StartRefill, BankStart;
    BanksApart(r.bankID - 1, r.bankID, r.maxBankSectors);
    BanksApart(r.bankID, r.stbankmax, r.maxBankSectors);
    BankStartIsProduct(0, r.maxBankSectors);
    NextPair(r);
    f := Refill(r.stLSN, BackOneBank(r), 2 * r.maxBankSectors);
    assert DueRefill(r) == Some(f);
    hide Shape;
  }

  /** With two banks, both are refilled together. */
  lemma BothBanksRefill(r: Ring, disc: Disc) returns (f: Refill)
    requires Shape(r.(offset := 0)) && r.offset == r.maxBankSectors > 0
    requires r.bankID == 1 && r.stbankmax == 2
    ensures Refilled(r, BankDone(r, disc), disc, f)
  {
    TwoBanks(r.maxBankSectors);
    hide BankStart;
    f := Refill(r.stLSN, BackOneBank(r), 2 * r.maxBankSectors);
    assert DueRefill(r) == Some(f) && f.base == 0 && f.count == |r.cells|;
    assert BankDone(r, disc) == NextBank(StartRefill(r, disc, f), f.count);
    WholeRingBegun(r, disc, f);
    hide StartRefill, Shape;
  }

  lemma TwoBanks(n: nat)
    ensures BankStart(0, n) == 0 && BankStart(1, n) == n && BankStart(2, n) == 2 * n
  {
    assert BankStart(1, n) == BankStart(0, n) + n && BankStart(2, n) == BankStart(1, n) + n;
  }

  lemma WholeRingBegun(r: Ring, disc: Disc, f: Refill)
    requires f.base == 0 && f.count == |r.cells|
    ensures Unfilled(StartRefill(r, disc, f).cells)
  {
  }

  lemma LastBankRefills(r: Ring, disc: Disc) returns (f: Refill)
    requires Shape(r.(offset := 0)) && r.offset == r.maxBankSectors > 0
    requires r.bankID % 2 == 0 && r.stbankmax - r.bankID == 1
    ensures Refilled(r, BankDone(r, disc), disc, f)
  {
    hide StartRefill, BankStart;
    LastBank(r);
    BankStartIsProduct(0, r.maxBankSectors);
    f := Refill(r.stLSN, r.bankPtr, r.maxBankSectors);
    assert DueRefill(r) == Some(f);
    hide Shape;
  }

  lemma LastBank(r: Ring)
    requires Shape(r.(offset := 0)) && r.bankID % 2 == 0 && r.stbankmax - r.bankID == 1
    ensures r.bankPtr + r.maxBankSectors == r.stbufmax
    ensures r.bankID > 0 ==> 2 * r.maxBankSectors <= r.bankPtr
  {
    if r.bankID > 0 {
      BanksApart(r.bankID - 1, r.bankID, r.maxBankSectors);
      BanksApart(r.bankID - 2, r.bankID - 1, r.maxBankSectors);
    }
  }

  /** Until the 8-bit bank number wraps in a longer ring, leaving a bank keeps the ring in step. */
  lemma LeaveBank(r: Ring, disc: Disc, pos: nat)
    requires Spent(r, disc, pos)
    requires r.stbankmax <= 256 || r.bankID < 255
    ensures InStep(BankDone(r, disc), disc, pos)
  {
    hide Aligned, Shape, StartRefill, BankStart, Refilled;
    if r.bankID % 2 == 1 {
      var f: Refill;
      if r.stbankmax == 2 { SecondOfTwo(r); f := BothBanksRefill(r, disc); } else { f := OddBankRefills(r, disc); }
      RefilledInStep(r, disc, pos, f);
    } else if r.stbankmax - r.bankID == 1 {
      var f := LastBankRefills(r, disc);
      RefilledInStep(r, disc, pos, f);
    } else {
      BankDoneKeepsShape(r, disc);
      NextInPair(r, disc, pos);
    }
  }

  lemma SecondOfTwo(r: Ring)
    requires Shape(r.(offset := 0)) && r.bankID % 2 == 1 && r.stbankmax == 2
    ensures r.bankID == 1
  {
  }

  /** After the first bank of a pair nothing is refilled. */
  lemma NextInPair(r: Ring, disc: Disc, pos: nat)
    requires Spent(r, disc, pos) && r.bankID % 2 == 0 && r.stbankmax - r.bankID != 1
    requires r.stbankmax <= 256 || r.bankID < 255
    ensures Aligned(BankDone(r, disc), disc, pos) && BankDone(r, disc).maxBankSectors == r.maxBankSectors
    ensures BankDone(r, disc).stbankmax == r.stbankmax
  {
    FirstOfPairDone(r, disc);
    hide Holds, DiscAt, BankDone, Shape, PairStart, Head, Available;
    assert Complete(BankDone(r, disc), disc).cells == Complete(r, disc).cells;
    hide Complete;
  }

  lemma FirstOfPairDone(r: Ring, disc: Disc)
    requires Shape(r.(offset := 0)) && r.offset == r.maxBankSectors
    requires r.bankID % 2 == 0 && r.stbankmax - r.bankID != 1 && (r.stbankmax <= 256 || r.bankID < 255)
    ensures var r' := BankDone(r, disc);
            && r' == r.(bankID := r'.bankID, bankPtr := r'.bankPtr, offset := r'.offset)
            && PairStart(r') == PairStart(r) && Head(r') == Head(r) && Available(r') == Available(r)
  {
    BankAfter(r.bankID, r.maxBankSectors);
    hide BankStart;
    assert DueRefill(r) == None;
  }

  lemma BankAfter(id: nat, n: nat)
    ensures BankStart(id + 1, n) == BankStart(id, n) + n
  {
  }

  lemma FlatSplit(disc: Disc, pos: nat, a: nat, b: nat)
    ensures Flat(disc, pos, a) + Flat(disc, pos + a, b) == Flat(disc, pos, a + b)
  {
  }

  /** No sector of the current bank is the target of an unfinished refill. */
  lemma CurrentBankSettled(r: Ring, disc: Disc, pos: nat, x: int)
    requires InStep(r, disc, pos) && (r.stbankmax <= 2 ==> r.pending.None?)
    requires r.bankPtr <= x < r.bankPtr + r.maxBankSectors
    ensures x < r.stbufmax && Complete(r, disc).cells[x] == r.cells[x]
  {
    hide Holds, DiscAt;
    BanksApart(r.bankID, r.stbankmax, r.maxBankSectors);
  }

  /** Copying from the current bank hands out the disc, none of it from an unfinished refill. */
  lemma CopyIsFlat(r: Ring, disc: Disc, pos: nat, n: nat)
    requires InStep(r, disc, pos) && n <= r.maxBankSectors - r.offset
    requires r.stbankmax <= 2 ==> r.pending.None?
    ensures Head(r) + n <= r.stbufmax
    ensures r.cells[Head(r)..Head(r) + n] == Flat(disc, pos, n)
  {
    hide DiscAt, Complete;
    BanksApart(r.bankID, r.stbankmax, r.maxBankSectors);
    var out := r.cells[Head(r)..Head(r) + n];
    forall i | 0 <= i < n
      ensures out[i] == Some(DiscAt(disc, pos + i))
    {
      CurrentBankSettled(r, disc, pos, Head(r) + i);
    }
  }

  lemma CopyKeepsAligned(r: Ring, disc: Disc, pos: nat, n: nat)
    requires InStep(r, disc, pos) && n <= r.maxBankSectors - r.offset
    ensures Aligned(r.(offset := r.offset + n), disc, pos + n)
  {
    hide DiscAt;
    assert Complete(r.(offset := r.offset + n), disc).cells == Complete(r, disc).cells;
  }

  /** The ring of a turn before and after its copy of `n` sectors. */
  lemma CopyStep(r: Ring, disc: Disc, pos: nat, left: nat, done: bool) returns (n: nat)
    requires InStep(r, disc, pos)
    ensures r.offset <= r.maxBankSectors && n == CopyCount(r, left) && (left > 0 ==> n > 0)
    ensures n <= r.maxBankSectors - r.offset
    ensures var ready := Ready(r, disc, done);
            var moved := ready.(offset := ready.offset + n);
            && InStep(ready, disc, pos)
            && (ready.stbankmax == 1 ==> ready.pending.None?)
            && (moved.offset >= moved.maxBankSectors ==> Spent(moved, disc, pos + n))
            && (moved.offset < moved.maxBankSectors ==> InStep(moved, disc, pos + n))
  {
    hide Ready, Aligned, BankStart;
    ReadyInStep(r, disc, pos, done);
    var ready := Ready(r, disc, done);
    n := CopyCount(ready, left);
    CopyKeepsAligned(ready, disc, pos, n);
  }

  /** A turn does not copy from an unfinished refill: with two banks, it finds none outstanding, or the
      drive has finished it by then. */
  predicate Settled(r: Ring, done: bool) { r.stbankmax != 2 || r.pending.None? || done }

  /** One turn stays in step with the flat reader, and hands out what that reader does exactly when it
      is settled. */
  lemma TurnInStep(r: Ring, disc: Disc, pos: nat, left: nat, done: bool)
    requires InStep(r, disc, pos) && left > 0
    requires r.stbankmax <= 256 || r.bankID < 255
    ensures var t := Turn(r, disc, left, done);
            && |t.out| > 0
            && (t.out == Flat(disc, pos, |t.out|) <==> Settled(r, done))
            && InStep(t.ring, disc, pos + |t.out|)
  {
    hide BankDone, Ready, Aligned, Shape, Flat, Settled;
    var n := CopyStep(r, disc, pos, left, done);
    var ready := Ready(r, disc, done);
    CopyIsFlatWhen(r, disc, pos, n, done);
    var moved := ready.(offset := ready.offset + n);
    if moved.offset >= moved.maxBankSectors {
      LeaveBank(moved, disc, pos + n);
    }
  }

  lemma CopyIsFlatWhen(r: Ring, disc: Disc, pos: nat, n: nat, done: bool)
    requires InStep(r, disc, pos) && 0 < n <= r.maxBankSectors - r.offset
    ensures Head(r) + n <= r.stbufmax
    ensures var ready := Ready(r, disc, done);
            ready.cells[Head(r)..Head(r) + n] == Flat(disc, pos, n) <==> Settled(r, done)
  {
    ReadyInStep(r, disc, pos, done);
    var ready := Ready(r, disc, done);
    if Settled(r, done) {
      SettledIsIdle(r, disc, done);
      hide Ready, InStep, Flat;
      CopyIsFlat(ready, disc, pos, n);
    } else {
      BanksApart(r.bankID, r.stbankmax, r.maxBankSectors);
      UnsettledIsUnfilled(r, disc, pos, done);
      hide Ready, InStep;
      assert ready.cells[Head(r)..Head(r) + n][0] == None;
    }
  }

  lemma SettledIsIdle(r: Ring, disc: Disc, done: bool)
    requires Settled(r, done)
    ensures Ready(r, disc, done).stbankmax <= 2 && r.stbankmax > 0 ==> Ready(r, disc, done).pending.None?
  {
  }

  lemma UnsettledIsUnfilled(r: Ring, disc: Disc, pos: nat, done: bool)
    requires InStep(r, disc, pos) && !Settled(r, done)
    ensures Ready(r, disc, done) == r && Unfilled(r.cells)
  {
    hide Holds, Shape;
  }

  /** Every turn of a read is settled. */
  predicate Waited(r: Ring, disc: Disc, left: nat, done: nat -> bool, k: nat)
    requires Shape(r) && r.maxBankSectors > 0
    decreases left
  {
    left == 0 ||
    var t := Turn(r, disc, left, done(k));
    Settled(r, done(k)) && Waited(t.ring, disc, left - |t.out|, done, k + 1)
  }

  lemma CopiesSomething(r: Ring, left: nat)
    requires Shape(r)
    ensures r.offset <= r.maxBankSectors
    ensures r.maxBankSectors > 0 && left > 0 ==> CopyCount(r, left) > 0
    ensures r.maxBankSectors == 0 ==> CopyCount(r, left) == 0
  {
  }

  lemma {:induction false} WaitedUnlessTwo(r: Ring, disc: Disc, left: nat, done: nat -> bool, k: nat)
    requires Shape(r) && r.maxBankSectors > 0 && r.stbankmax != 2
    ensures Waited(r, disc, left, done, k)
    decreases left
  {
    hide Turn, Shape;
    if left > 0 {
      var t := Turn(r, disc, left, done(k));
      CopiesSomething(r, left);
      WaitedUnlessTwo(t.ring, disc, left - |t.out|, done, k + 1);
    }
  }

  /** A read of any length stays in step, and its copies are those of a flat read exactly when each of
      its turns is settled: with two banks, when the drive has finished at every turn that finds a
      refill outstanding, and with one or with 3 to 256, always. */
  lemma {:induction false} ReadIsFlat(r: Ring, disc: Disc, pos: nat, left: nat, done: nat -> bool, k: nat)
    requires InStep(r, disc, pos) && r.stbankmax <= 256
    ensures Read(r, disc, left, done, k).out == Flat(disc, pos, left) <==> Waited(r, disc, left, done, k)
    ensures InStep(Read(r, disc, left, done, k).ring, disc, pos + left)
    decreases left
  {
    hide Turn, Aligned, Flat, Shape, Settled;
    if left > 0 {
      var t := Turn(r, disc, left, done(k));
      var rest := Read(t.ring, disc, left - |t.out|, done, k + 1);
      TurnInStep(r, disc, pos, left, done(k));
      ReadIsFlat(t.ring, disc, pos + |t.out|, left - |t.out|, done, k + 1);
      FlatSplit(disc, pos, |t.out|, left - |t.out|);
      PartsEqual(t.out, rest.out, Flat(disc, pos, |t.out|), Flat(disc, pos + |t.out|, left - |t.out|));
    }
  }

  lemma PartsEqual<T>(a: seq<T>, b: seq<T>, c: seq<T>, d: seq<T>)
    requires |a| == |c|
    ensures a + b == c + d <==> a == c && b == d
  {
    if a + b == c + d {
      assert a == (a + b)[..|a|] && b == (a + b)[|a|..] && c == (c + d)[..|a|] && d == (c + d)[|a|..];
    }
  }

  lemma StartInStep(r: Ring, disc: Disc, lsn: nat)
    requires Shape(r) && r.maxBankSectors > 0 && lsn < TWO_32
    ensures InStep(Start(r, disc, lsn), disc, lsn)
  {
  }

  lemma AheadBy(r: Ring, disc: Disc, pos: nat)
    requires InStep(r, disc, pos)
    ensures r.stLSN == U32(pos + Available(r))
  {
    hide Holds, PendingApart;
  }

  /* ---- Refills: in the ring, over consumed banks, each disc sector once ---- */

  /** `f` is a read of the next disc sectors over exactly the ring sectors consumed up to `end`. */
  predicate RefillsConsumed(f: Refill, r: Ring, end: int) {
    f.lsn == r.stLSN && f.count > 0 && f.base == PairStart(r) && f.base + f.count == end <= r.stbufmax
  }

  /** Between two states no read was asked of the drive, or just `f`. */
  predicate AskedAtMost(r: Ring, r': Ring, f: Refill) {
    || (r'.requests == r.requests && r'.stLSN == r.stLSN)
    || (r'.requests == r.requests + [f] && r'.pending == Some(f) && r'.stLSN == U32(f.lsn + f.count))
  }

  lemma BankDoneRefills(r: Ring, disc: Disc, pos: nat)
    requires Spent(r, disc, pos)
    ensures exists f :: AskedAtMost(r, BankDone(r, disc), f) && RefillsConsumed(f, r, Head(r))
  {
    hide Aligned, Complete, StartRefill;
    BanksApart(r.bankID, r.stbankmax, r.maxBankSectors);
    if r.bankID % 2 == 1 { BanksApart(r.bankID - 1, r.bankID, r.maxBankSectors); }
    hide BankStart;
    var f := Refill(r.stLSN, PairStart(r), r.maxBankSectors + Consumed(r));
    assert AskedAtMost(r, BankDone(r, disc), f);
  }

  /** At every turn the read-ahead counter is ahead of the reader by exactly the sectors fetched but
      not delivered, and a refill overwrites exactly the sectors consumed, inside the ring. */
  lemma RefillsOnlyConsumedBanks(r: Ring, disc: Disc, pos: nat, left: nat, done: bool)
    requires InStep(r, disc, pos) && r.stbankmax <= 256
    ensures r.stLSN == U32(pos + r.stbufmax - Consumed(r) - r.offset)
    ensures var t := Turn(r, disc, left, done);
            || (t.ring.requests == r.requests && t.ring.stLSN == r.stLSN)
            || exists f :: AskedAtMost(r, t.ring, f) && RefillsConsumed(f, r, Head(r) + |t.out|)
  {
    hide BankDone, Ready, Aligned, Shape, U32;
    AheadBy(r, disc, pos);
    var n := CopyStep(r, disc, pos, left, done);
    var ready := Ready(r, disc, done);
    var moved := ready.(offset := ready.offset + n);
    assert moved.requests == r.requests;
    if moved.offset >= moved.maxBankSectors {
      BankDoneRefills(moved, disc, pos + n);
      var f :| AskedAtMost(moved, BankDone(moved, disc), f) && RefillsConsumed(f, moved, Head(moved));
      assert AskedAtMost(r, Turn(r, disc, left, done).ring, f) && RefillsConsumed(f, r, Head(r) + n);
    }
  }

  /** The reads in `fs` fetch the disc from `from` to `to`, without gap or overlap. */
  predicate Consecutive(fs: seq<Refill>, from: nat, to: nat) {
    if fs == [] then from == to
    else fs[0].lsn == from && Consecutive(fs[1..], U32(from + fs[0].count), to)
  }

  lemma {:induction false} ConsecutiveConcat(a: seq<Refill>, b: seq<Refill>, from: nat, mid: nat, to: nat)
    requires Consecutive(a, from, mid) && Consecutive(b, mid, to)
    ensures Consecutive(a + b, from, to)
  {
    if a == [] {
      assert a + b == b;
    } else {
      assert (a + b)[1..] == a[1..] + b;
      ConsecutiveConcat(a[1..], b, U32(from + a[0].count), mid, to);
    }
  }

  /** From `r` to `r'` the drive was asked for consecutive sectors, up to the read-ahead counter. */
  predicate FetchedBetween(r: Ring, r': Ring, from: nat) {
    r.requests <= r'.requests && Consecutive(r'.requests[|r.requests|..], from, r'.stLSN)
  }

  lemma FetchesJoin(r: Ring, t: Ring, r': Ring, from: nat)
    requires FetchedBetween(r, t, from) && FetchedBetween(t, r', t.stLSN)
    ensures FetchedBetween(r, r', from)
  {
    var a, b := t.requests[|r.requests|..], r'.requests[|t.requests|..];
    assert r'.requests[|r.requests|..] == a + b;
    ConsecutiveConcat(a, b, from, t.stLSN, r'.stLSN);
  }

  lemma TurnFetches(r: Ring, disc: Disc, pos: nat, left: nat, done: bool)
    requires InStep(r, disc, pos) && r.stbankmax <= 256
    ensures FetchedBetween(r, Turn(r, disc, left, done).ring, r.stLSN)
  {
    hide Turn, Aligned, RefillsConsumed;
    var r' := Turn(r, disc, left, done).ring;
    RefillsOnlyConsumedBanks(r, disc, pos, left, done);
    if r'.requests == r.requests && r'.stLSN == r.stLSN {
      assert r'.requests[|r.requests|..] == [];
    } else {
      var f :| AskedAtMost(r, r', f) && RefillsConsumed(f, r, Head(r) + |Turn(r, disc, left, done).out|);
      ConsumedFrom(f, r, Head(r) + |Turn(r, disc, left, done).out|);
      OneFetch(r, r', f);
    }
  }

  lemma ConsumedFrom(f: Refill, r: Ring, end: int)
    requires RefillsConsumed(f, r, end)
    ensures f.lsn == r.stLSN
  {
  }

  lemma OneFetch(r: Ring, r': Ring, f: Refill)
    requires AskedAtMost(r, r', f) && f.lsn == r.stLSN && !(r'.requests == r.requests && r'.stLSN == r.stLSN)
    ensures FetchedBetween(r, r', r.stLSN)
  {
    assert r'.requests[|r.requests|..] == [f];
    assert [f][1..] == [];
  }

  /** A read asks the drive for consecutive runs of sectors: each disc sector is fetched once. */
  lemma {:induction false} FetchedOnce(r: Ring, disc: Disc, pos: nat, left: nat, done: nat -> bool, k: nat)
    requires InStep(r, disc, pos) && r.stbankmax <= 256
    ensures FetchedBetween(r, Read(r, disc, left, done, k).ring, r.stLSN)
    decreases left
  {
    hide Turn, Aligned, FetchedBetween;
    if left > 0 {
      var t := Turn(r, disc, left, done(k));
      TurnInStep(r, disc, pos, left, done(k));
      TurnFetches(r, disc, pos, left, done(k));
      FetchedOnce(t.ring, disc, pos + |t.out|, left - |t.out|, done, k + 1);
      FetchesJoin(r, t.ring, Read(r, disc, left, done, k).ring, r.stLSN);
    } else {
      NoFetch(r);
    }
  }

  lemma NoFetch(r: Ring)
    ensures FetchedBetween(r, r, r.stLSN)
  {
  }

  /* ---- Two banks, and more than 256 ---- */

  /** With two banks, a long enough read copies from the refill it has just started. */
  lemma TwoBanksBreak(r: Ring, disc: Disc, never: nat -> bool)
    requires Shape(r) && r.maxBankSectors > 0 && r.stbankmax == 2
    requires r.bankID == 0 && r.offset == 0 && r.pending.None?
    requires forall k :: !never(k)
    ensures Read(r, disc, 2 * r.maxBankSectors + 1, never, 0).out[2 * r.maxBankSectors] == None
  {
    hide Turn, Shape;
    var n := r.maxBankSectors;
    var t1 := Turn(r, disc, 2 * n + 1, false);
    FirstOfTwoBanks(r, disc, 2 * n + 1);
    var t2 := Turn(t1.ring, disc, n + 1, false);
    SecondOfTwoBanks(t1.ring, disc, n + 1);
    var t3 := Turn(t2.ring, disc, 1, false);
    FirstSector(t2.ring, disc);
    assert Read(t2.ring, disc, 1, never, 2).out == t3.out + [];
    assert Read(t1.ring, disc, n + 1, never, 1).out == t2.out + t3.out;
    assert Read(r, disc, 2 * n + 1, never, 0).out == t1.out + (t2.out + t3.out);
  }

  lemma FirstOfTwoBanks(r: Ring, disc: Disc, left: nat)
    requires Shape(r) && 0 < r.maxBankSectors < left && r.stbankmax == 2 && r.bankID == 0 && r.offset == 0
    ensures var t := Turn(r, disc, left, false);
            |t.out| == r.maxBankSectors && t.ring.bankID == 1 && t.ring.offset == 0
  {
  }

  lemma SecondOfTwoBanks(r: Ring, disc: Disc, left: nat)
    requires Shape(r) && 0 < r.maxBankSectors < left && r.stbankmax == 2 && r.bankID == 1 && r.offset == 0
    ensures var t := Turn(r, disc, left, false);
            && |t.out| == r.maxBankSectors && t.ring.bankPtr == 0 && t.ring.offset == 0
            && |t.ring.cells| > 0 && t.ring.cells[0] == None
  {
    assert BankStart(1, r.maxBankSectors) == BankStart(0, r.maxBankSectors) + r.maxBankSectors;
  }

  /** A turn for one sector from the start of the ring. */
  lemma FirstSector(r: Ring, disc: Disc)
    requires Shape(r) && r.maxBankSectors > 0 && r.stbankmax >= 2 && r.bankPtr == 0 && r.offset == 0
    ensures |r.cells| > 0 && Turn(r, disc, 1, false).out == [r.cells[0]]
  {
    hide BankDone;
    BanksApart(r.bankID, r.stbankmax, r.maxBankSectors);
  }

  /** Reading out a whole bank moves on to the next one, until bank 255. */
  lemma WholeBank(r: Ring, disc: Disc, left: nat, done: bool)
    requires Shape(r) && 0 == r.offset < r.maxBankSectors < left
    requires r.stbankmax > 256 && r.bankID < 255
    ensures var t := Turn(r, disc, left, done);
            && |t.out| == r.maxBankSectors
            && t.ring.bankID == r.bankID + 1 && t.ring.offset == 0
            && t.ring.bankPtr == r.bankPtr + r.maxBankSectors
  {
    hide Complete, StartRefill;
  }

  lemma Bank255Wraps(r: Ring, disc: Disc, pos: nat, left: nat, done: bool)
    requires InStep(r, disc, pos) && r.offset == 0 && r.maxBankSectors < left
    requires r.stbankmax > 256 && r.bankID == 255
    ensures var t := Turn(r, disc, left, done);
            && |t.out| == r.maxBankSectors
            && t.ring.bankPtr == 0 && t.ring.offset == 0
            && |Complete(t.ring, disc).cells| > 0
            && Complete(t.ring, disc).cells[0] == Some(DiscAt(disc, pos + r.stbufmax - r.bankPtr))
  {
    hide Ready, Aligned, BankDone;
    ReadyInStep(r, disc, pos, done);
    var ready := Ready(r, disc, done);
    CopyKeepsAligned(ready, disc, pos, r.maxBankSectors);
    var spent := ready.(offset := r.maxBankSectors);
    Bank255Done(spent, disc, pos + r.maxBankSectors);
  }

  lemma Bank255Done(r: Ring, disc: Disc, pos: nat)
    requires Spent(r, disc, pos) && r.stbankmax > 256 && r.bankID == 255
    ensures var r' := BankDone(r, disc);
            && r'.bankPtr == 0 && r'.offset == 0
            && |Complete(r', disc).cells| > 0
            && Complete(r', disc).cells[0] == Some(DiscAt(disc, pos + r.stbufmax - Head(r)))
  {
    hide DiscAt, Complete, StartRefill, Aligned, Shape;
    var f := DueAfter255(r, disc);
    LeaveRefilledBank(r, disc, pos, f);
    FirstHeld(Complete(StartRefill(r, disc, f), disc).cells, Head(r), disc, pos);
  }

  lemma DueAfter255(r: Ring, disc: Disc) returns (f: Refill)
    requires Shape(r.(offset := 0)) && r.stbankmax > 256 && r.bankID == 255 && 0 < r.maxBankSectors == r.offset
    ensures f == Refill(r.stLSN, PairStart(r), r.maxBankSectors + Consumed(r))
    ensures 0 <= PairStart(r) && 0 < Head(r) <= r.stbufmax == |r.cells|
    ensures var r' := BankDone(r, disc);
            && r'.bankPtr == 0 && r'.offset == 0
            && Complete(r', disc).cells == Complete(StartRefill(r, disc, f), disc).cells
  {
    hide StartRefill, BankStart;
    BanksApart(r.bankID - 1, r.bankID, r.maxBankSectors);
    BanksApart(r.bankID, r.stbankmax, r.maxBankSectors);
    BankStartIsProduct(0, r.maxBankSectors);
    f := Refill(r.stLSN, BackOneBank(r), 2 * r.maxBankSectors);
    assert DueRefill(r) == Some(f);
  }

  lemma FirstHeld(c: seq<Cell>, head: int, disc: Disc, pos: nat)
    requires Holds(c, head, head, disc, pos) && 0 < head <= |c|
    ensures c[0] == Some(DiscAt(disc, pos + |c| - head))
  {
    hide DiscAt;
    assert pos + (|c| - head) + 0 == pos + |c| - head;
  }

  /** With more than 256 banks the 8-bit bank number wraps before the end of the ring: the sector
      read after bank 255 is the one already fetched for the place behind the last bank. */
  lemma {:induction false} ManyBanksBreak(r: Ring, disc: Disc, pos: nat, left: nat, done: nat -> bool, k: nat)
    requires InStep(r, disc, pos) && r.stbankmax > 256 && r.offset == 0 && r.bankID < 256
    requires left == BankStart(256, r.maxBankSectors) - r.bankPtr
    requires forall j :: done(j)
    ensures Read(r, disc, left + 1, done, k).out[left] == Some(DiscAt(disc, pos + r.stbufmax - r.bankPtr))
    decreases 256 - r.bankID
  {
    hide Turn, Aligned, DiscAt, Shape, BankStart, Complete;
    var n, t := r.maxBankSectors, Turn(r, disc, left + 1, done(k));
    BanksApart(r.bankID, 256, n);
    PtrOfBank(r);
    if r.bankID < 255 {
      WholeBank(r, disc, left + 1, done(k));
      TurnInStep(r, disc, pos, left + 1, done(k));
      ManyBanksBreak(t.ring, disc, pos + n, left - n, done, k + 1);
      AfterTurn(r, disc, left + 1, done, k);
    } else {
      Bank255Breaks(r, disc, pos, left, done, k);
    }
  }

  lemma Bank255Breaks(r: Ring, disc: Disc, pos: nat, left: nat, done: nat -> bool, k: nat)
    requires InStep(r, disc, pos) && r.stbankmax > 256 && r.offset == 0 && r.bankID == 255
    requires left == BankStart(256, r.maxBankSectors) - r.bankPtr && done(k + 1)
    ensures Read(r, disc, left + 1, done, k).out[left] == Some(DiscAt(disc, pos + r.stbufmax - r.bankPtr))
  {
    hide Turn, Aligned, DiscAt, Shape, BankStart, Complete;
    PtrOfBank(r);
    BankAfter(255, r.maxBankSectors);
    Bank255Wraps(r, disc, pos, left + 1, done(k));
    LastSector(Turn(r, disc, left + 1, done(k)).ring, disc, done, k + 1);
    AfterTurn(r, disc, left + 1, done, k);
  }

  lemma PtrOfBank(r: Ring)
    requires Shape(r)
    ensures r.bankPtr == BankStart(r.bankID, r.maxBankSectors)
  {
  }

  /** A read is its next turn and the rest. */
  lemma AfterTurn(r: Ring, disc: Disc, left: nat, done: nat -> bool, k: nat)
    requires Shape(r) && r.maxBankSectors > 0 && left > 0
    ensures var t := Turn(r, disc, left, done(k));
            && |t.out| <= left
            && Read(r, disc, left, done, k).out == t.out + Read(t.ring, disc, left - |t.out|, done, k + 1).out
  {
    hide Turn, Shape;
  }

  lemma LastSector(r: Ring, disc: Disc, done: nat -> bool, k: nat)
    requires Shape(r) && r.maxBankSectors > 0 && r.bankPtr == 0 && r.offset == 0 && done(k)
    ensures |Complete(r, disc).cells| > 0
    ensures Read(r, disc, 1, done, k).out == [Complete(r, disc).cells[0]]
  {
    hide Complete, StartRefill;
    BanksApart(r.bankID, r.stbankmax, r.maxBankSectors);
    var t := Turn(r, disc, 1, true);
    assert Read(r, disc, 1, done, k).out == t.out + [];
  }

  /* ---- Termination ---- */

  /** The loop after at most `n` turns, the first of them turn `k`. */
  function Turns(r: Ring, disc: Disc, left: nat, done: nat -> bool, k: nat, n: nat): (p: Progress)
    requires Shape(r)
    ensures |p.out| <= left
    decreases n
  {
    if n == 0 || left == 0 then Progress([], r)
    else
      var t := Turn(r, disc, left, done(k));
      var rest := Turns(t.ring, disc, left - |t.out|, done, k + 1, n - 1);
      Progress(t.out + rest.out, rest.ring)
  }

  lemma {:induction false} TurnsAdvance(r: Ring, disc: Disc, left: nat, done: nat -> bool, k: nat, n: nat)
    requires Shape(r)
    ensures var got := |Turns(r, disc, left, done, k, n).out|;
            if r.maxBankSectors == 0 then got == 0 else got >= n || got == left
    decreases n
  {
    hide Turn, Shape;
    if n > 0 && left > 0 {
      var t := Turn(r, disc, left, done(k));
      CopiesSomething(r, left);
      TurnsAdvance(t.ring, disc, left - |t.out|, done, k + 1, n - 1);
    }
  }

  /** Turns that have delivered everything are the whole read. */
  lemma {:induction false} TurnsAreRead(r: Ring, disc: Disc, left: nat, done: nat -> bool, k: nat, n: nat)
    requires Shape(r) && r.maxBankSectors > 0 && |Turns(r, disc, left, done, k, n).out| == left
    ensures Turns(r, disc, left, done, k, n) == Read(r, disc, left, done, k)
    decreases n
  {
    hide Turn, Shape;
    if n > 0 && left > 0 {
      var t := Turn(r, disc, left, done(k));
      TurnsAreRead(t.ring, disc, left - |t.out|, done, k + 1, n - 1);
    }
  }

  /** `sceCdStRead` returns exactly when it is asked for nothing or the banks are not empty. A bank
      size that is a multiple of 65536 is stored as 0, and then every read hangs. */
  lemma ReadReturnsExactlyWhen(r: Ring, disc: Disc, left: nat, done: nat -> bool)
    requires Shape(r)
    ensures (exists n :: |Turns(r, disc, left, done, 0, n).out| == left) <==> left == 0 || r.maxBankSectors > 0
  {
    hide Shape;
    forall n
      ensures r.maxBankSectors == 0 ==> |Turns(r, disc, left, done, 0, n).out| == 0
    {
      TurnsAdvance(r, disc, left, done, 0, n);
    }
    TurnsAdvance(r, disc, left, done, 0, left);
    assert |Turns(r, disc, left, done, 0, left).out| == left || r.maxBankSectors == 0;
    assert left == 0 ==> |Turns(r, disc, left, done, 0, 0).out| == 0;
  }
}
