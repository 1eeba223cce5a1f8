/** Whole runs of the stream, and reads whose sectors go to the EE: those are only queued for transfer
    when they are copied, and a refill may overtake the transfer. */
module StreamRuns {
  import opened Common
  import opened StreamRing
  import opened StreamTheorems

  /* ---- Copies and transfers ---- */

  /** The bit of a read's mode that chooses the copy routine. `memcpy` is over when it returns.
      `EE_memcpy` waits for the transfer before and queues its own; that of turn `k` outlives the begin of
      `outlived(k)` refills, unless another copy to the EE, which waits for it, comes first. */
  datatype Mode = IOP | EE(outlived: nat -> nat)

  function Outlives(mode: Mode, k: nat): nat {
    match mode
    case IOP => 0
    case EE(outlived) => outlived(k)
  }

  /** The sectors of a transfer from ring position `from`, once the refill `f` has begun before its end:
      a sector whose place is refilled is no longer determined. */
  function Overtaken(cells: seq<Cell>, from: nat, f: Refill): (c: seq<Cell>)
    ensures |c| == |cells|
  {
    seq(|cells|, i requires 0 <= i < |cells| => if Covers(f, from + i) then None else cells[i])
  }

  /** What arrives of a transfer that outlives the begin of all these refills. */
  function Arrives(cells: seq<Cell>, from: nat, fs: seq<Refill>): (c: seq<Cell>)
    ensures |c| == |cells|
    decreases |fs|
  {
    if fs == [] then cells else Arrives(Overtaken(cells, from, fs[0]), from, fs[1..])
  }

  /** The first `n` of them. */
  function First(fs: seq<Refill>, n: nat): seq<Refill> { if n < |fs| then fs[..n] else fs }

  /** The refills asked of the drive between two states. */
  function Asked(r: Ring, r': Ring): seq<Refill>
    requires r.requests <= r'.requests
  {
    r'.requests[|r.requests|..]
  }

  /* ---- Calls ---- */

  /** What a game does with the stream; `done` is the drive's timing during a read. */
  datatype Call = StStart(lsn: nat) | StSeekF(lsn: nat) | StRead(sectors: nat, mode: Mode, done: nat -> bool)

  predicate Legal(calls: seq<Call>) {
    forall i :: 0 <= i < |calls| && !calls[i].StRead? ==> calls[i].lsn < TWO_32
  }

  /** The ring after one call; the mode of a read makes no difference to it. */
  function Called(r: Ring, disc: Disc, call: Call): (r': Ring)
    requires Shape(r) && r.maxBankSectors > 0 && Legal([call])
    ensures Shape(r') && r'.maxBankSectors == r.maxBankSectors && r'.stbankmax == r.stbankmax
    ensures r'.stbufmax == r.stbufmax && r.requests <= r'.requests
  {
    assert [call][0] == call;
    match call
    case StStart(lsn) => StartShape(r, disc, lsn); Start(r, disc, lsn)
    case StSeekF(lsn) => StartShape(Rewind(r, lsn), disc, lsn); SeekF(r, disc, lsn)
    case StRead(n, _, done) => Read(r, disc, n, done, 0).ring
  }

  /** The ring after a run. */
  function RunRing(r: Ring, disc: Disc, calls: seq<Call>): (r': Ring)
    requires Shape(r) && r.maxBankSectors > 0 && Legal(calls)
    ensures Shape(r') && r'.maxBankSectors == r.maxBankSectors && r'.stbankmax == r.stbankmax
    ensures r'.stbufmax == r.stbufmax
    decreases |calls|
  {
    if calls == [] then r else RunRing(Called(r, disc, calls[0]), disc, calls[1..])
  }

  /** The refills that may begin while the last transfer is still under way: those of the calls that
      follow, until the first copy to the EE. */
  function Exposed(r: Ring, disc: Disc, calls: seq<Call>): seq<Refill>
    requires Shape(r) && r.maxBankSectors > 0 && Legal(calls)
    decreases |calls|
  {
    if calls == [] || (calls[0].StRead? && calls[0].mode.EE? && calls[0].sectors > 0) then []
    else
      var r' := Called(r, disc, calls[0]);
      Asked(r, r') + Exposed(r', disc, calls[1..])
  }

  /** They are all that is asked of the drive until the first read that hands sectors to the EE, or until
      the end of the run. */
  lemma {:induction false} ExposedAreAsked(r: Ring, disc: Disc, calls: seq<Call>, m: nat)
    requires Shape(r) && r.maxBankSectors > 0 && Legal(calls) && m <= |calls|
    requires forall i :: 0 <= i < m && calls[i].StRead? && calls[i].mode.EE? ==> calls[i].sectors == 0
    requires m < |calls| ==> calls[m].StRead? && calls[m].mode.EE? && calls[m].sectors > 0
    ensures Legal(calls[..m]) && r.requests <= RunRing(r, disc, calls[..m]).requests
    ensures Exposed(r, disc, calls) == RunRing(r, disc, calls[..m]).requests[|r.requests|..]
    decreases |calls|
  {
    hide Called, Shape;
    if m > 0 {
      var r' := Called(r, disc, calls[0]);
      ExposedAreAsked(r', disc, calls[1..], m - 1);
      assert calls[..m][0] == calls[0] && calls[..m][1..] == calls[1..][..m - 1];
      AskedTwice(r, r', RunRing(r', disc, calls[1..][..m - 1]));
    } else {
      assert calls[..0] == [];
    }
  }

  lemma AskedTwice(r: Ring, t: Ring, r': Ring)
    requires r.requests <= t.requests <= r'.requests
    ensures r.requests <= r'.requests && Asked(r, r') == Asked(r, t) + Asked(t, r')
  {
  }

  /** The refills that may begin before the transfer of a turn from `r` to `t` has to be over, when the
      read has `rest` sectors to go and the calls `later` follow it. */
  function Hazards(r: Ring, t: Ring, disc: Disc, rest: nat, later: seq<Call>): seq<Refill>
    requires Shape(t) && t.maxBankSectors > 0 && Legal(later) && r.requests <= t.requests
  {
    Asked(r, t) + if rest == 0 then Exposed(t, disc, later) else []
  }

  /** The sectors a read hands out, once its transfers are over; `later` are the calls after it. */
  function Delivered(r: Ring, disc: Disc, left: nat, mode: Mode, done: nat -> bool, k: nat, later: seq<Call>)
    : (out: seq<Cell>)
    requires Shape(r) && r.maxBankSectors > 0 && Legal(later)
    ensures |out| == left
    decreases left
  {
    if left == 0 then []
    else
      var t := Turn(r, disc, left, done(k));
      var rest := left - |t.out|;
      Arrives(t.out, r.bankPtr + r.offset, First(Hazards(r, t.ring, disc, rest, later), Outlives(mode, k)))
      + Delivered(t.ring, disc, rest, mode, done, k + 1, later)
  }

  /** What a call hands out. */
  function Output(r: Ring, disc: Disc, call: Call, later: seq<Call>): seq<Cell>
    requires Shape(r) && r.maxBankSectors > 0 && Legal(later)
  {
    match call
    case StRead(n, mode, done) => Delivered(r, disc, n, mode, done, 0, later)
    case _ => []
  }

  /** What each call of a run hands out. */
  function Outputs(r: Ring, disc: Disc, calls: seq<Call>): seq<seq<Cell>>
    requires Shape(r) && r.maxBankSectors > 0 && Legal(calls)
    decreases |calls|
  {
    if calls == [] then []
    else [Output(r, disc, calls[0], calls[1..])] + Outputs(Called(r, disc, calls[0]), disc, calls[1..])
  }

  /** The same run on a flat reader. */
  function FlatOutputs(disc: Disc, pos: nat, calls: seq<Call>): seq<seq<Cell>>
    decreases |calls|
  {
    if calls == [] then []
    else match calls[0]
      case StStart(lsn) => [[]] + FlatOutputs(disc, lsn, calls[1..])
      case StSeekF(lsn) => [[]] + FlatOutputs(disc, lsn, calls[1..])
      case StRead(n, _, _) => [Flat(disc, pos, n)] + FlatOutputs(disc, pos + n, calls[1..])
  }

  /* ---- A refill that overtakes a transfer overtakes all of it ---- */

  /** Ring positions lo..hi have been consumed, and no refill has been asked for since the pair of banks
      they lie in was begun. */
  predicate Taken(r: Ring, lo: int, hi: int) { PairStart(r) <= lo <= hi <= Head(r) }

  predicate CoversAll(f: Refill, lo: int, hi: int) { f.base <= lo && hi <= f.base + f.count }

  /** From `r` to `r'` the first refill, if there is one, is over all of lo..hi. */
  predicate FirstCovers(r: Ring, r': Ring, lo: int, hi: int) {
    && r.requests <= r'.requests
    && if Asked(r, r') == [] then Taken(r', lo, hi) else CoversAll(Asked(r, r')[0], lo, hi)
  }

  lemma FirstCoversJoins(r: Ring, t: Ring, r': Ring, lo: int, hi: int)
    requires FirstCovers(r, t, lo, hi)
    requires if Asked(r, t) == [] then FirstCovers(t, r', lo, hi) else t.requests <= r'.requests
    ensures FirstCovers(r, r', lo, hi)
  {
    assert Asked(r, r') == Asked(r, t) + Asked(t, r');
    hide Taken, CoversAll;
  }

  /** A turn that asks for no refill stays in its pair of banks. */
  lemma SamePair(r: Ring, disc: Disc, pos: nat)
    requires Spent(r, disc, pos) && r.stbankmax <= 256 && BankDone(r, disc).requests == r.requests
    ensures var r' := BankDone(r, disc); PairStart(r') == PairStart(r) && Head(r') == Head(r)
  {
    hide Aligned, Complete, StartRefill;
    assert DueRefill(r) == None;
  }

  /** The turn takes the sectors from `Head(r)` on. */
  lemma TurnFirstCovers(r: Ring, disc: Disc, pos: nat, left: nat, done: bool, lo: int)
    requires InStep(r, disc, pos) && r.stbankmax <= 256 && PairStart(r) <= lo <= Head(r)
    ensures var t := Turn(r, disc, left, done); FirstCovers(r, t.ring, lo, Head(r) + |t.out|)
  {
    hide Ready, BankDone, Aligned, Shape, RefillsConsumed, AskedAtMost;
    var t := Turn(r, disc, left, done);
    var n := CopyStep(r, disc, pos, left, done);
    var ready := Ready(r, disc, done);
    var moved := ready.(offset := ready.offset + n);
    if moved.offset >= moved.maxBankSectors {
      if t.ring.requests == r.requests {
        SamePair(moved, disc, pos + n);
      } else {
        BankDoneRefills(moved, disc, pos + n);
        var f :| AskedAtMost(moved, BankDone(moved, disc), f) && RefillsConsumed(f, moved, Head(moved));
        OneAsked(moved, BankDone(moved, disc), f);
      }
    }
    hide Turn;
  }

  lemma OneAsked(r: Ring, r': Ring, f: Refill)
    requires AskedAtMost(r, r', f) && RefillsConsumed(f, r, Head(r)) && r'.requests != r.requests
    ensures r.requests <= r'.requests && Asked(r, r') == [f]
    ensures f.base == PairStart(r) && f.base + f.count == Head(r)
  {
  }

  lemma {:induction false} ReadFirstCovers(
    r: Ring, disc: Disc, pos: nat, left: nat, done: nat -> bool, k: nat, lo: int, hi: int)
    requires InStep(r, disc, pos) && r.stbankmax <= 256 && Taken(r, lo, hi)
    ensures FirstCovers(r, Read(r, disc, left, done, k).ring, lo, hi)
    decreases left
  {
    hide Turn, Aligned, Shape, FirstCovers;
    if left > 0 {
      var t := Turn(r, disc, left, done(k));
      TurnInStep(r, disc, pos, left, done(k));
      TurnFirstCovers(r, disc, pos, left, done(k), lo);
      Narrower(r, t.ring, lo, hi, Head(r) + |t.out|);
      if Asked(r, t.ring) == [] {
        StillTaken(r, t.ring, lo, hi);
        ReadFirstCovers(t.ring, disc, pos + |t.out|, left - |t.out|, done, k + 1, lo, hi);
      }
      FirstCoversJoins(r, t.ring, Read(r, disc, left, done, k).ring, lo, hi);
    } else {
      NoneAsked(r, lo, hi);
    }
  }

  lemma NoneAsked(r: Ring, lo: int, hi: int)
    requires Taken(r, lo, hi)
    ensures FirstCovers(r, r, lo, hi)
  {
  }

  lemma Narrower(r: Ring, r': Ring, lo: int, hi: int, end: int)
    requires FirstCovers(r, r', lo, end) && lo <= hi <= end
    ensures FirstCovers(r, r', lo, hi)
  {
  }

  lemma StillTaken(r: Ring, r': Ring, lo: int, hi: int)
    requires FirstCovers(r, r', lo, hi) && Asked(r, r') == []
    ensures Taken(r', lo, hi)
  {
  }

  /** A start asks for the whole ring. */
  lemma StartFirstCovers(r: Ring, disc: Disc, lsn: nat, lo: int, hi: int)
    requires 0 <= lo && hi <= r.stbufmax
    ensures FirstCovers(r, Start(r, disc, lsn), lo, hi)
    ensures FirstCovers(r, SeekF(r, disc, lsn), lo, hi)
  {
    assert Asked(r, Start(r, disc, lsn)) == [Refill(lsn, 0, r.stbufmax)];
    assert Asked(r, SeekF(r, disc, lsn)) == [Refill(lsn, 0, r.stbufmax)];
  }

  lemma CallFirstCovers(r: Ring, disc: Disc, pos: nat, call: Call, lo: int, hi: int) returns (pos': nat)
    requires InStep(r, disc, pos) && r.stbankmax <= 256 && Legal([call])
    requires Taken(r, lo, hi)
    ensures FirstCovers(r, Called(r, disc, call), lo, hi)
    ensures InStep(Called(r, disc, call), disc, pos')
  {
    pos' := CalledInStep(r, disc, pos, call);
    TakenBounds(r, lo, hi);
    hide Start, Read, FirstCovers, Taken, Aligned, Shape;
    match call
    case StStart(lsn) => StartFirstCovers(r, disc, lsn, lo, hi);
    case StSeekF(lsn) => StartFirstCovers(r, disc, lsn, lo, hi);
    case StRead(n, _, done) => ReadFirstCovers(r, disc, pos, n, done, 0, lo, hi);
  }

  lemma TakenBounds(r: Ring, lo: int, hi: int)
    requires Shape(r) && Taken(r, lo, hi)
    ensures 0 <= lo && hi <= r.stbufmax
  {
    BanksApart(r.bankID, r.stbankmax, r.maxBankSectors);
    if r.bankID % 2 == 1 { BanksApart(r.bankID - 1, r.bankID, r.maxBankSectors); }
  }

  /** Where a flat reader goes on after a call. */
  function NextPos(pos: nat, call: Call): nat {
    match call
    case StStart(lsn) => lsn
    case StSeekF(lsn) => lsn
    case StRead(n, _, _) => pos + n
  }

  lemma CalledInStep(r: Ring, disc: Disc, pos: nat, call: Call) returns (pos': nat)
    requires InStep(r, disc, pos) && r.stbankmax <= 256 && Legal([call])
    ensures pos' == NextPos(pos, call) && InStep(Called(r, disc, call), disc, pos')
  {
    hide Start, Read, Aligned, Flat;
    pos' := NextPos(pos, call);
    assert [call][0] == call;
    match call
    case StStart(lsn) => StartInStep(r, disc, lsn);
    case StSeekF(lsn) => RewindShape(r, lsn); StartInStep(Rewind(r, lsn), disc, lsn);
    case StRead(n, _, done) => ReadIsFlat(r, disc, pos, n, done, 0);
  }

  lemma RewindShape(r: Ring, lsn: nat)
    requires Shape(r) && lsn < TWO_32
    ensures Shape(Rewind(r, lsn))
  {
  }

  lemma {:induction false} ExposedFirstCovers(r: Ring, disc: Disc, pos: nat, calls: seq<Call>, lo: int, hi: int)
    requires InStep(r, disc, pos) && r.stbankmax <= 256 && Legal(calls) && Taken(r, lo, hi)
    ensures var fs := Exposed(r, disc, calls); fs != [] ==> CoversAll(fs[0], lo, hi)
    decreases |calls|
  {
    hide InStep, Shape, Taken, CoversAll, Called;
    if calls != [] && !(calls[0].StRead? && calls[0].mode.EE? && calls[0].sectors > 0) {
      assert InStep(r, disc, pos);
      LegalFirst(calls);
      StepShape(r, disc, pos);
      var r' := Called(r, disc, calls[0]);
      var pos' := CallFirstCovers(r, disc, pos, calls[0], lo, hi);
      if Asked(r, r') == [] { ExposedFirstCovers(r', disc, pos', calls[1..], lo, hi); }
    }
  }

  lemma LegalFirst(calls: seq<Call>)
    requires Legal(calls) && calls != []
    ensures Legal([calls[0]]) && Legal(calls[1..])
  {
  }

  lemma StepShape(r: Ring, disc: Disc, pos: nat)
    requires InStep(r, disc, pos)
    ensures Shape(r) && r.maxBankSectors > 0
  {
  }

  /** The first refill that can overtake the transfer of a turn is over all of its sectors. */
  lemma HazardsCover(r: Ring, disc: Disc, pos: nat, left: nat, done: bool, later: seq<Call>)
    requires InStep(r, disc, pos) && r.stbankmax <= 256 && Legal(later) && left > 0
    ensures var t := Turn(r, disc, left, done);
            && |t.out| <= left
            && var fs := Hazards(r, t.ring, disc, left - |t.out|, later);
               fs != [] ==> CoversAll(fs[0], Head(r), Head(r) + |t.out|)
  {
    hide Turn, Aligned, CoversAll, Shape, Exposed;
    var t := Turn(r, disc, left, done);
    TurnInStep(r, disc, pos, left, done);
    PairBehind(r);
    TurnFirstCovers(r, disc, pos, left, done, Head(r));
    if Asked(r, t.ring) == [] && left == |t.out| {
      ExposedFirstCovers(t.ring, disc, pos + |t.out|, later, Head(r), Head(r) + |t.out|);
    }
  }

  lemma PairBehind(r: Ring)
    ensures PairStart(r) <= Head(r)
  {
  }

  /** Nothing of such a transfer is determined any more. */
  lemma {:induction false} NothingArrives(cells: seq<Cell>, from: nat, fs: seq<Refill>)
    requires fs != [] && (CoversAll(fs[0], from, from + |cells|) || Unfilled(cells))
    ensures Unfilled(Arrives(cells, from, fs))
    decreases |fs|
  {
    var c := Overtaken(cells, from, fs[0]);
    forall i | 0 <= i < |c|
      ensures c[i] == None
    {
      assert CoversAll(fs[0], from, from + |cells|) ==> Covers(fs[0], from + i);
    }
    if |fs| > 1 { NothingArrives(c, from, fs[1..]); } else { assert fs[1..] == []; }
  }

  /* ---- When a read is flat ---- */

  /** The transfer of no turn outlives the begin of a refill. */
  predicate InTime(r: Ring, disc: Disc, left: nat, mode: Mode, done: nat -> bool, k: nat, later: seq<Call>)
    requires Shape(r) && r.maxBankSectors > 0 && Legal(later)
    decreases left
  {
    left == 0 ||
    var t := Turn(r, disc, left, done(k));
    var rest := left - |t.out|;
    && (Hazards(r, t.ring, disc, rest, later) == [] || Outlives(mode, k) == 0)
    && InTime(t.ring, disc, rest, mode, done, k + 1, later)
  }

  lemma {:induction false} IopInTime(r: Ring, disc: Disc, left: nat, done: nat -> bool, k: nat, later: seq<Call>)
    requires Shape(r) && r.maxBankSectors > 0 && Legal(later)
    ensures InTime(r, disc, left, IOP, done, k, later)
    ensures Delivered(r, disc, left, IOP, done, k, later) == Read(r, disc, left, done, k).out
    decreases left
  {
    hide Turn, Shape, Hazards;
    if left > 0 {
      var t := Turn(r, disc, left, done(k));
      CopiesSomething(r, left);
      IopInTime(t.ring, disc, left - |t.out|, done, k + 1, later);
      assert First(Hazards(r, t.ring, disc, left - |t.out|, later), 0) == [];
    }
  }

  /** The sectors of a turn arrive as a flat reader's exactly when the turn is settled and no refill
      begins before their transfer is over. */
  lemma TurnArrives(r: Ring, disc: Disc, pos: nat, left: nat, done: bool, later: seq<Call>, n: nat)
    requires InStep(r, disc, pos) && r.stbankmax <= 256 && Legal(later) && left > 0
    ensures var t := Turn(r, disc, left, done);
            && |t.out| <= left
            && var fs := Hazards(r, t.ring, disc, left - |t.out|, later);
               Arrives(t.out, r.bankPtr + r.offset, First(fs, n)) == Flat(disc, pos, |t.out|)
               <==> Settled(r, done) && (fs == [] || n == 0)
  {
    hide Turn, Aligned, Shape, Hazards, CoversAll, Settled;
    var t := Turn(r, disc, left, done);
    TurnInStep(r, disc, pos, left, done);
    HazardsCover(r, disc, pos, left, done, later);
    var fs := Hazards(r, t.ring, disc, left - |t.out|, later);
    if fs == [] || n == 0 {
      assert First(fs, n) == [];
    } else {
      NothingArrives(t.out, r.bankPtr + r.offset, First(fs, n));
      hide Arrives;
      assert Flat(disc, pos, |t.out|)[0] != None;
    }
  }

  /** A read, to either memory, hands out what a flat reader does exactly when its turns are settled and
      its transfers in time. */
  lemma {:induction false} DeliversFlat(
    r: Ring, disc: Disc, pos: nat, left: nat, mode: Mode, done: nat -> bool, k: nat, later: seq<Call>)
    requires InStep(r, disc, pos) && r.stbankmax <= 256 && Legal(later)
    ensures Delivered(r, disc, left, mode, done, k, later) == Flat(disc, pos, left)
            <==> Waited(r, disc, left, done, k) && InTime(r, disc, left, mode, done, k, later)
    decreases left
  {
    hide Turn, Aligned, Flat, Shape, Settled, Hazards, Arrives;
    if left > 0 {
      var t := Turn(r, disc, left, done(k));
      var rest := left - |t.out|;
      TurnInStep(r, disc, pos, left, done(k));
      TurnArrives(r, disc, pos, left, done(k), later, Outlives(mode, k));
      DeliversFlat(t.ring, disc, pos + |t.out|, rest, mode, done, k + 1, later);
      FlatSplit(disc, pos, |t.out|, rest);
      var part := Arrives(t.out, r.bankPtr + r.offset, First(Hazards(r, t.ring, disc, rest, later), Outlives(mode, k)));
      PartsEqual(part, Delivered(t.ring, disc, rest, mode, done, k + 1, later),
                 Flat(disc, pos, |t.out|), Flat(disc, pos + |t.out|, rest));
    }
  }

  /* ---- When a run is flat ---- */

  /** With two banks: the drive has finished at every turn of the run that finds a refill outstanding. */
  predicate RunWaited(r: Ring, disc: Disc, calls: seq<Call>)
    requires Shape(r) && r.maxBankSectors > 0 && Legal(calls)
    decreases |calls|
  {
    calls == [] ||
    (&& (calls[0].StRead? ==> Waited(r, disc, calls[0].sectors, calls[0].done, 0))
     && RunWaited(Called(r, disc, calls[0]), disc, calls[1..]))
  }

  /** No transfer to the EE outlives the begin of the next refill. */
  predicate RunInTime(r: Ring, disc: Disc, calls: seq<Call>)
    requires Shape(r) && r.maxBankSectors > 0 && Legal(calls)
    decreases |calls|
  {
    calls == [] ||
    (&& (calls[0].StRead? ==>
           InTime(r, disc, calls[0].sectors, calls[0].mode, calls[0].done, 0, calls[1..]))
     && RunInTime(Called(r, disc, calls[0]), disc, calls[1..]))
  }

  lemma {:induction false} RunWaitedUnlessTwo(r: Ring, disc: Disc, calls: seq<Call>)
    requires Shape(r) && r.maxBankSectors > 0 && Legal(calls) && r.stbankmax != 2
    ensures RunWaited(r, disc, calls)
    decreases |calls|
  {
    hide Shape, Called, Waited;
    if calls != [] {
      if calls[0].StRead? { WaitedUnlessTwo(r, disc, calls[0].sectors, calls[0].done, 0); }
      RunWaitedUnlessTwo(Called(r, disc, calls[0]), disc, calls[1..]);
    }
  }

  /** Without copies to the EE a run is in time. */
  lemma {:induction false} IopRunInTime(r: Ring, disc: Disc, calls: seq<Call>)
    requires Shape(r) && r.maxBankSectors > 0 && Legal(calls)
    requires forall i :: 0 <= i < |calls| && calls[i].StRead? ==> calls[i].mode.IOP?
    ensures RunInTime(r, disc, calls)
    decreases |calls|
  {
    hide Shape, Called, InTime;
    if calls != [] {
      if calls[0].StRead? { IopInTime(r, disc, calls[0].sectors, calls[0].done, 0, calls[1..]); }
      IopRunInTime(Called(r, disc, calls[0]), disc, calls[1..]);
    }
  }

  /** From a state in step, with up to 256 banks. */
  lemma {:induction false} RunInStep(r: Ring, disc: Disc, pos: nat, calls: seq<Call>)
    requires InStep(r, disc, pos) && r.stbankmax <= 256 && Legal(calls)
    ensures Outputs(r, disc, calls) == FlatOutputs(disc, pos, calls)
            <==> RunWaited(r, disc, calls) && RunInTime(r, disc, calls)
    decreases |calls|
  {
    hide Aligned, Shape, Flat, Called, Waited, InTime, Delivered;
    if calls != [] {
      LegalFirst(calls);
      var first, rest := calls[0], calls[1..];
      var r' := Called(r, disc, first);
      var pos' := CalledInStep(r, disc, pos, first);
      RunInStep(r', disc, pos', rest);
      if first.StRead? { DeliversFlat(r, disc, pos, first.sectors, first.mode, first.done, 0, rest); }
      var flat := if first.StRead? then Flat(disc, pos, first.sectors) else [];
      assert FlatOutputs(disc, pos, calls) == [flat] + FlatOutputs(disc, pos', rest);
      OneMore(Output(r, disc, first, rest), Outputs(r', disc, rest), flat, FlatOutputs(disc, pos', rest));
    }
  }

  lemma OneMore<T>(a: T, b: seq<T>, c: T, d: seq<T>)
    ensures [a] + b == [c] + d <==> a == c && b == d
  {
    PartsEqual([a], b, [c], d);
  }

  /** A run has to say where to stream from before it reads. */
  predicate Opened(calls: seq<Call>) { calls != [] && !calls[0].StRead? }

  lemma OpenedRun(r: Ring, disc: Disc, calls: seq<Call>)
    requires Shape(r) && r.maxBankSectors > 0 && r.stbankmax <= 256
    requires Legal(calls) && Opened(calls)
    ensures Outputs(r, disc, calls) == FlatOutputs(disc, 0, calls)
            <==> RunWaited(r, disc, calls) && RunInTime(r, disc, calls)
  {
    hide Start, Aligned;
    var lsn, rest := calls[0].lsn, calls[1..];
    LegalFirst(calls);
    RewindShape(r, lsn);
    StartInStep(r, disc, lsn);
    StartInStep(Rewind(r, lsn), disc, lsn);
    var r' := Called(r, disc, calls[0]);
    RunInStep(r', disc, lsn, rest);
    hide Shape, Called;
    OneMore([], Outputs(r', disc, rest), [], FlatOutputs(disc, lsn, rest));
  }

  /** This run of a ring opened with these arguments is a flat reader's. */
  ghost predicate RunsFlat(r: Ring, bufmax: nat, bankmax: nat, disc: Disc, calls: seq<Call>)
    requires 1 <= bankmax && bufmax * 2048 <= TWO_32 && U16(bufmax / bankmax) > 0
    requires OpenedAs(r, bufmax, bankmax) && Legal(calls)
  {
    OpenedShape(bufmax, bankmax, r);
    Outputs(r, disc, calls) == FlatOutputs(disc, 0, calls)
  }

  ghost predicate RunsInTime(r: Ring, bufmax: nat, bankmax: nat, disc: Disc, calls: seq<Call>)
    requires 1 <= bankmax && bufmax * 2048 <= TWO_32 && U16(bufmax / bankmax) > 0
    requires OpenedAs(r, bufmax, bankmax) && Legal(calls)
  {
    OpenedShape(bufmax, bankmax, r);
    RunInTime(r, disc, calls)
  }

  /** A ring opened with these arguments behaves as a flat reader: whatever its buffer held, on every
      disc, over every run of calls, whenever the drive finishes its refills, the run is a flat reader's
      exactly when no transfer to the EE outlives the begin of the next refill. */
  ghost predicate FlatReader(bufmax: nat, bankmax: nat)
    requires 1 <= bankmax && bufmax * 2048 <= TWO_32 && U16(bufmax / bankmax) > 0
  {
    forall r: Ring, disc: Disc, calls: seq<Call> ::
      OpenedAs(r, bufmax, bankmax) && Legal(calls) && Opened(calls) ==>
        (RunsFlat(r, bufmax, bankmax, disc, calls) <==> RunsInTime(r, bufmax, bankmax, disc, calls))
  }

  /** The main theorem. The buffer fits the address space; the bank size, a 16-bit field, is not 0. */
  lemma FlatExactlyWhen(bufmax: nat, bankmax: nat)
    requires 1 <= bankmax && bufmax * 2048 <= TWO_32 && U16(bufmax / bankmax) > 0
    ensures FlatReader(bufmax, bankmax) <==> bankmax != 2 && bankmax <= 256
  {
    hide Outputs, FlatOutputs, RunInTime;
    if bankmax == 2 {
      TwoBanksNotFlat(bufmax);
    } else if bankmax > 256 {
      ManyBanksNotFlat(bufmax, bankmax);
    } else {
      forall r: Ring, disc: Disc, calls: seq<Call> | OpenedAs(r, bufmax, bankmax) && Legal(calls) && Opened(calls)
        ensures RunsFlat(r, bufmax, bankmax, disc, calls) <==> RunsInTime(r, bufmax, bankmax, disc, calls)
      {
        OpenedShape(bufmax, bankmax, r);
        OpenedRun(r, disc, calls);
        RunWaitedUnlessTwo(r, disc, calls);
      }
    }
  }

  /** With two banks a run is a flat reader's exactly when, besides, the drive has finished at every turn
      that finds a refill outstanding. */
  lemma TwoBanksExactlyWhen(bufmax: nat, r: Ring, disc: Disc, calls: seq<Call>)
    requires bufmax * 2048 <= TWO_32 && U16(bufmax / 2) > 0
    requires OpenedAs(r, bufmax, 2) && Legal(calls) && Opened(calls)
    ensures Shape(r)
    ensures RunsFlat(r, bufmax, 2, disc, calls) <==> RunWaited(r, disc, calls) && RunInTime(r, disc, calls)
  {
    OpenedShape(bufmax, 2, r);
    OpenedRun(r, disc, calls);
    hide Outputs, FlatOutputs, RunInTime, RunWaited;
  }

  lemma TwoBanksNotFlat(bufmax: nat)
    requires bufmax * 2048 <= TWO_32 && U16(bufmax / 2) > 0
    ensures !FlatReader(bufmax, 2)
  {
    InitShape(bufmax, 2);
    hide FlatReader, U16;
    var r, disc: Disc, never: nat -> bool := Init(bufmax, 2), (x: int) => x, (_: nat) => false;
    StartShape(r, disc, 0);
    TwoBanksBreak(Start(r, disc, 0), disc, never);
    ReadBreaks(bufmax, 2, disc, 2 * r.maxBankSectors + 1, never);
  }

  lemma ManyBanksNotFlat(bufmax: nat, bankmax: nat)
    requires 256 < bankmax && bufmax * 2048 <= TWO_32 && U16(bufmax / bankmax) > 0
    ensures !FlatReader(bufmax, bankmax)
  {
    hide Start, Read, InStep, BankStart, FlatReader, U16;
    InitShape(bufmax, bankmax);
    var r, disc: Disc, always: nat -> bool := Init(bufmax, bankmax), (x: int) => x, (_: nat) => true;
    var left := BankStart(256, r.maxBankSectors);
    StartShape(r, disc, 0);
    StartInStep(r, disc, 0);
    StartRewinds(r, disc, 0);
    ManyBanksBreak(Start(r, disc, 0), disc, 0, left, always, 0);
    BanksApart(256, bankmax, r.maxBankSectors);
    ReadBreaks(bufmax, bankmax, disc, left + 1, always);
  }

  lemma StartRewinds(r: Ring, disc: Disc, lsn: nat)
    ensures var r' := Start(r, disc, lsn);
            r'.bankID == 0 && r'.offset == 0 && r'.bankPtr == 0 && r'.stbufmax == r.stbufmax
  {
  }

  /** One read with a wrong last sector shows that the ring is no flat reader. */
  lemma ReadBreaks(bufmax: nat, bankmax: nat, disc: Disc, sectors: nat, done: nat -> bool)
    requires 1 <= bankmax && bufmax * 2048 <= TWO_32 && U16(bufmax / bankmax) > 0 && sectors > 0
    requires Shape(Init(bufmax, bankmax)) && Shape(Start(Init(bufmax, bankmax), disc, 0))
    requires Start(Init(bufmax, bankmax), disc, 0).maxBankSectors > 0
    requires Read(Start(Init(bufmax, bankmax), disc, 0), disc, sectors, done, 0).out[sectors - 1]
             != Some(DiscAt(disc, sectors - 1))
    ensures !FlatReader(bufmax, bankmax)
  {
    hide Outputs, FlatOutputs, Start, Read, RunInTime;
    var r, calls := Init(bufmax, bankmax), [StStart(0), StRead(sectors, IOP, done)];
    assert OpenedAs(r, bufmax, bankmax) && Legal(calls) && Opened(calls);
    OneRead(r, disc, sectors, done);
    IopRunInTime(r, disc, calls);
    assert Flat(disc, 0, sectors)[sectors - 1] == Some(DiscAt(disc, sectors - 1));
    assert Outputs(r, disc, calls)[1] != FlatOutputs(disc, 0, calls)[1];
    assert !RunsFlat(r, bufmax, bankmax, disc, calls) && RunsInTime(r, bufmax, bankmax, disc, calls);
  }

  lemma OneRead(r: Ring, disc: Disc, sectors: nat, done: nat -> bool)
    requires Shape(r) && r.maxBankSectors > 0 && Shape(Start(r, disc, 0))
    ensures var calls := [StStart(0), StRead(sectors, IOP, done)];
            && Outputs(r, disc, calls) == [[], Read(Start(r, disc, 0), disc, sectors, done, 0).out]
            && FlatOutputs(disc, 0, calls) == [[], Flat(disc, 0, sectors)]
  {
    hide Start, Read, Flat, Delivered;
    var read := StRead(sectors, IOP, done);
    var calls, rest := [StStart(0), read], [read];
    assert calls[1..] == rest && rest[1..] == [];
    StartShape(r, disc, 0);
    var r' := Start(r, disc, 0);
    IopInTime(r', disc, sectors, done, 0, []);
    assert Outputs(r', disc, rest)
        == [Read(r', disc, sectors, done, 0).out] + Outputs(Called(r', disc, read), disc, []);
    assert FlatOutputs(disc, 0, rest) == [Flat(disc, 0, sectors)];
  }

  /* ---- What a run asks of the drive ---- */

  lemma LegalParts(a: seq<Call>, b: seq<Call>)
    ensures Legal(a + b) <==> Legal(a) && Legal(b)
  {
    if Legal(a + b) {
      assert forall i :: 0 <= i < |a| ==> (a + b)[i] == a[i];
      assert forall i :: 0 <= i < |b| ==> (a + b)[|a| + i] == b[i];
    }
  }

  lemma {:induction false} RunSplits(r: Ring, disc: Disc, a: seq<Call>, b: seq<Call>)
    requires Shape(r) && r.maxBankSectors > 0 && Legal(a) && Legal(b)
    ensures Legal(a + b) && RunRing(r, disc, a + b) == RunRing(RunRing(r, disc, a), disc, b)
    decreases |a|
  {
    hide Called, Shape;
    LegalParts(a, b);
    if a == [] {
      assert a + b == b;
    } else {
      assert (a + b)[1..] == a[1..] + b;
      RunSplits(Called(r, disc, a[0]), disc, a[1..], b);
    }
  }

  predicate OnlyReads(calls: seq<Call>) { forall i :: 0 <= i < |calls| ==> calls[i].StRead? }

  lemma {:induction false} ReadsFetchOn(r: Ring, disc: Disc, pos: nat, later: seq<Call>)
    requires InStep(r, disc, pos) && r.stbankmax <= 256 && OnlyReads(later)
    ensures Legal(later) && FetchedBetween(r, RunRing(r, disc, later), r.stLSN)
    decreases |later|
  {
    hide Aligned, Read, Shape;
    if later != [] {
      var first := later[0];
      var t, r' := Read(r, disc, first.sectors, first.done, 0).ring, RunRing(r, disc, later);
      assert Called(r, disc, first) == t;
      ReadIsFlat(r, disc, pos, first.sectors, first.done, 0);
      FetchedOnce(r, disc, pos, first.sectors, first.done, 0);
      ReadsFetchOn(t, disc, pos + first.sectors, later[1..]);
      FetchesJoin(r, t, r', r.stLSN);
    }
  }

  /** In any run, from a start or seek on, the drive is asked for the whole ring and then for one run of
      sectors after the other, up to the read-ahead counter: each disc sector once. */
  lemma FetchedOnceInRun(r: Ring, disc: Disc, before: seq<Call>, open: Call, later: seq<Call>)
    requires Shape(r) && r.maxBankSectors > 0 && r.stbankmax <= 256
    requires Legal(before) && Legal([open]) && !open.StRead? && OnlyReads(later)
    ensures Legal(before + [open] + later)
    ensures var at, r' := RunRing(r, disc, before), RunRing(r, disc, before + [open] + later);
            && FetchedBetween(at, r', open.lsn)
            && |r'.requests| > |at.requests|
            && r'.requests[|at.requests|] == Refill(open.lsn, 0, r.stbufmax)
  {
    hide Shape, Aligned, Start;
    LegalParts([open], later);
    LegalParts(before + [open], later);
    LegalParts(before, [open]);
    assert [open][0] == open && [open][1..] == [];
    var at := RunRing(r, disc, before);
    var begun := Called(at, disc, open);
    RunSplits(r, disc, before + [open], later);
    RunSplits(r, disc, before, [open]);
    assert RunRing(at, disc, [open]) == begun;
    StartFetches(at, disc, open.lsn);
    StartFetches(Rewind(at, open.lsn), disc, open.lsn);
    RewindShape(at, open.lsn);
    StartInStep(at, disc, open.lsn);
    StartInStep(Rewind(at, open.lsn), disc, open.lsn);
    ReadsFetchOn(begun, disc, open.lsn, later);
    FetchesJoin(at, begun, RunRing(begun, disc, later), open.lsn);
  }

  lemma StartFetches(r: Ring, disc: Disc, lsn: nat)
    ensures var r', f := Start(r, disc, lsn), Refill(lsn, 0, r.stbufmax);
            r'.requests == r.requests + [f] && FetchedBetween(r, r', lsn)
  {
    var r', f := Start(r, disc, lsn), Refill(lsn, 0, r.stbufmax);
    assert r'.requests[|r.requests|..] == [f];
    assert [f][1..] == [];
  }
}
