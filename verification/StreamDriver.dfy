/** The streaming half of CDVDMAN as the driver runs it: `async_config` is updated in place, the
    read buffer and the caller's buffer are arrays, and every operation is proved to do exactly what
    the ring specification says. */
module StreamDriver {
  import opened Common
  import opened StreamRing
  import opened StreamTheorems
  import opened StreamRuns

  /** A transfer to the EE that may be under way: from the ring in `source`, positions from..from+count,
      to dest[at..]; it outlives the begin of `outlives` more refills. A sector that is refilled before
      the transfer is over is no longer determined at its destination. */
  datatype Transfer = Transfer(source: array<Cell>, from: nat, count: nat, dest: array<Cell>, at: nat, outlives: nat)

  /** The same as a value. */
  datatype Sending = Sending(cells: seq<Cell>, from: nat, outlives: nat)

  /** A transfer after these refills have begun. */
  function Overtake(s: Option<Sending>, fs: seq<Refill>): Option<Sending> {
    match s
    case None => None
    case Some(x) =>
      var hit := First(fs, x.outlives);
      Some(Sending(Arrives(x.cells, x.from, hit), x.from, x.outlives - |hit|))
  }

  class Cdvdman {
    const disc: Disc

    // async_config
    var stbufmax: nat
    var stbankmax: nat
    var maxBankSectors: nat
    var bankID: nat
    var sectorsStreamed: nat
    var stLSN: nat
    var bankSectorOffset: nat
    var bankPtr: nat
    var stReadBuffer: array<Cell>

    // the drive; an unfinished refill goes to the buffer it was started for
    var pending: Option<Refill>
    var refillTarget: array<Cell>
    ghost var requests: seq<Refill>

    // the DMA to the EE, behind EE_dmatrans_id
    var sending: Option<Transfer>

    /** The unfinished refill, as far as it concerns the present ring. */
    ghost function PendingHere(): Option<Refill>
      reads this
    {
      if refillTarget == stReadBuffer then pending else None
    }

    ghost function View(): Ring
      reads this, stReadBuffer
      requires stbufmax <= stReadBuffer.Length
    {
      Ring(maxBankSectors, stbufmax, stbankmax, bankID, stLSN, bankSectorOffset, bankPtr,
           stReadBuffer[..stbufmax], PendingHere(), requests)
    }

    /** The buffer the drive may still write to. */
    ghost function Target(): set<array<Cell>>
      reads this
    {
      if pending.Some? then {refillTarget} else {}
    }

    /** The memory a transfer may still write to. */
    ghost function SendingTo(): set<array<Cell>>
      reads this
    {
      if sending.Some? then {sending.value.dest} else {}
    }

    /** The unfinished refill lies inside its buffer, and so does the transfer, in the other memory. */
    ghost predicate InBounds()
      reads this
    {
      && (pending.Some? ==> pending.value.base + pending.value.count <= refillTarget.Length)
      && (sending.Some? ==> sending.value.at + sending.value.count <= sending.value.dest.Length)
      && stReadBuffer !in SendingTo() && Target() !! SendingTo()
    }

    /** The memory a transfer goes to. */
    ghost function Dest(): seq<Cell>
      reads this, SendingTo()
    {
      if sending.Some? then sending.value.dest[..] else []
    }

    /** The transfer, as far as it concerns the present ring. */
    ghost function Under(): Option<Sending>
      reads this, SendingTo()
    {
      Reaching(sending, stReadBuffer, Dest())
    }

    static ghost function Reaching(t: Option<Transfer>, ring: array<Cell>, dest: seq<Cell>): Option<Sending> {
      match t
      case None => None
      case Some(t) =>
        if t.source == ring && t.at + t.count <= |dest| then
          Some(Sending(dest[t.at..t.at + t.count], t.from, t.outlives))
        else None
    }

    /** The same transfer as before, and nothing around it has changed at its destination. */
    twostate predicate SameTransfer()
      reads this, SendingTo()
    {
      Same(old(sending), old(Dest()), sending, Dest())
    }

    static ghost predicate Same(t: Option<Transfer>, before: seq<Cell>, t': Option<Transfer>, now: seq<Cell>) {
      match t
      case None => t' == None
      case Some(t) =>
        && t'.Some? && t'.value == t.(outlives := t'.value.outlives)
        && |before| == |now| && t.at + t.count <= |now|
        && now[..t.at] == before[..t.at] && now[t.at + t.count..] == before[t.at + t.count..]
    }

    static lemma SameTwice(t: Option<Transfer>, a: seq<Cell>, t': Option<Transfer>, b: seq<Cell>,
                           t'': Option<Transfer>, c: seq<Cell>)
      requires Same(t, a, t', b) && Same(t', b, t'', c)
      ensures Same(t, a, t'', c)
    {
    }

    static lemma NothingMoved(t: Option<Transfer>, a: seq<Cell>)
      requires t.Some? ==> t.value.at + t.value.count <= |a|
      ensures Same(t, a, t, a)
    {
    }

    /** It was started for the present ring, or for another buffer. */
    ghost predicate RefillInRing()
      reads this
    {
      pending.Some? && refillTarget == stReadBuffer ==> pending.value.base + pending.value.count <= stbufmax
    }

    ghost predicate Valid()
      reads this, stReadBuffer
    {
      stbufmax <= stReadBuffer.Length && Shape(View()) && InBounds()
    }

    constructor (disc: Disc)
      ensures this.disc == disc && pending.None? && sending.None? && InBounds() && requests == []
    {
      var none := new Cell[0];
      this.disc := disc;
      stbufmax, stbankmax, maxBankSectors, bankID, sectorsStreamed := 0, 0, 0, 0, 0;
      stLSN, bankSectorOffset, bankPtr := 0, 0, 0;
      stReadBuffer, refillTarget := none, none;
      pending, requests, sending := None, [], None;
    }

    /** `sceCdSync(0)`. */
    method Sync()
      requires stbufmax <= stReadBuffer.Length && InBounds()
      modifies this`pending, Target()
      ensures pending.None? && InBounds() && View() == Complete(old(View()), disc) && Dest() == old(Dest())
      ensures old(pending.Some?) ==> refillTarget[..] == Landed(old(refillTarget[..]), disc, old(pending.value))
      ensures old(RefillInRing()) ==> stReadBuffer[stbufmax..] == old(stReadBuffer[stbufmax..])
    {
      if pending.Some? {
        var f := pending.value;
        ghost var before := refillTarget[..];
        forall x | f.base <= x < f.base + f.count {
          refillTarget[x] := Some(DiscAt(disc, f.lsn + (x - f.base)));
        }
        assert refillTarget[..] == Landed(before, disc, f);
        if refillTarget == stReadBuffer { LandedParts(before, disc, f, stbufmax); }
        pending := None;
      }
    }

    static lemma LandedParts(cells: seq<Cell>, disc: Disc, f: Refill, n: nat)
      requires n <= |cells|
      ensures Landed(cells, disc, f)[..n] == Landed(cells[..n], disc, f)
      ensures f.base + f.count <= n ==> Landed(cells, disc, f)[n..] == cells[n..]
    {
    }

    /** `stReadRingBuffer`. */
    method ReadRingBuffer(lsn: nat, sectors: nat, at: nat)
      requires stbufmax <= stReadBuffer.Length && InBounds() && at + sectors <= stbufmax
      modifies this`pending, this`refillTarget, this`requests, this`sending, Target(), SendingTo(), stReadBuffer
      ensures View() == StartRefill(old(View()), disc, Refill(lsn, at, sectors))
      ensures InBounds() && refillTarget == stReadBuffer
      ensures Under() == Overtake(old(Under()), [Refill(lsn, at, sectors)]) && SameTransfer()
      ensures SendingTo() == old(SendingTo())
      ensures RefillInRing() && (old(RefillInRing()) ==> stReadBuffer[stbufmax..] == old(stReadBuffer[stbufmax..]))
    {
      hide StartRefill, Overtake;
      ReadNoCB(Refill(lsn, at, sectors));
      RefillBegins(Refill(lsn, at, sectors));
    }

    /** `cdvdman_read_noCB`: wait for the drive, then start the read. */
    method ReadNoCB(f: Refill)
      requires stbufmax <= stReadBuffer.Length && InBounds() && f.base + f.count <= stbufmax
      modifies this`pending, this`refillTarget, this`requests, Target(), stReadBuffer
      ensures View() == StartRefill(old(View()), disc, f)
      ensures InBounds() && refillTarget == stReadBuffer
      ensures RefillInRing() && (old(RefillInRing()) ==> stReadBuffer[stbufmax..] == old(stReadBuffer[stbufmax..]))
    {
      hide Complete, Landed, Begun;
      Sync();
      Blank(f);
      pending, refillTarget := Some(f), stReadBuffer;
      requests := requests + [f];
    }

    /** A target holds no value until the read is over. */
    method Blank(f: Refill)
      requires f.base + f.count <= stbufmax <= stReadBuffer.Length
      modifies stReadBuffer
      ensures stReadBuffer[..stbufmax] == Begun(old(stReadBuffer[..stbufmax]), f)
      ensures stReadBuffer[stbufmax..] == old(stReadBuffer[stbufmax..])
    {
      forall x | f.base <= x < f.base + f.count {
        stReadBuffer[x] := None;
      }
    }

    /** What a refill of the ring does to a transfer that is under way. */
    method RefillBegins(f: Refill)
      requires InBounds()
      modifies this`sending, SendingTo()
      ensures InBounds() && SendingTo() == old(SendingTo())
      ensures Under() == Overtake(old(Under()), [f]) && SameTransfer()
    {
      hide Overtake, Overtaken;
      if sending.Some? && sending.value.source == stReadBuffer {
        var t := sending.value;
        ghost var before := Under();
        if t.outlives > 0 {
          Undetermine(t, f);
          sending := Some(t.(outlives := t.outlives - 1));
          OneRefill(before.value, f);
        } else {
          NoRefill(before.value, f);
        }
      } else {
        NoSending([f]);
      }
    }

    /** The sectors of the transfer whose places are refilled. */
    static method Undetermine(t: Transfer, f: Refill)
      requires t.at + t.count <= t.dest.Length
      modifies t.dest
      ensures t.dest[..t.at] == old(t.dest[..t.at]) && t.dest[t.at + t.count..] == old(t.dest[t.at + t.count..])
      ensures t.dest[t.at..t.at + t.count] == Overtaken(old(t.dest[t.at..t.at + t.count]), t.from, f)
    {
      forall i | 0 <= i < t.count && Covers(f, t.from + i) {
        t.dest[t.at + i] := None;
      }
    }

    static lemma NoSending(fs: seq<Refill>)
      ensures Overtake(None, fs) == None
    {
    }

    static lemma OneRefill(s: Sending, f: Refill)
      requires s.outlives > 0
      ensures Overtake(Some(s), [f]) == Some(Sending(Overtaken(s.cells, s.from, f), s.from, s.outlives - 1))
    {
      assert [f][1..] == [];
      assert First([f], s.outlives) == [f];
      assert Arrives(Overtaken(s.cells, s.from, f), s.from, []) == Overtaken(s.cells, s.from, f);
    }

    static lemma NoRefill(s: Sending, f: Refill)
      requires s.outlives == 0
      ensures Overtake(Some(s), [f]) == Some(s)
    {
      assert First([f], 0) == [];
    }

    /** `stInit`. */
    method InitFrom(lsn: nat)
      requires Valid() && lsn < TWO_32
      modifies this`bankID, this`bankSectorOffset, this`bankPtr, this`stLSN
      ensures Valid() && View() == Rewind(old(View()), lsn)
      ensures bankID == 0 && bankSectorOffset == 0 && bankPtr == 0 && stLSN == lsn
    {
      bankID, bankSectorOffset, bankPtr, stLSN := 0, 0, 0, lsn;
    }

    /** `sceCdStInit`, on a buffer of `bufmax` sectors. It does not wait for a refill. */
    method StInit(bufmax: nat, bankmax: nat, buffer: array<Cell>) returns (result: int)
      requires 1 <= bankmax && bufmax * 2048 <= TWO_32 && bufmax <= buffer.Length && InBounds()
      requires buffer !in SendingTo()
      modifies this
      ensures Valid() && stbufmax <= buffer.Length && OpenedAs(View(), bufmax, bankmax)
      ensures View().cells == buffer[..stbufmax] && View().requests == old(requests)
      ensures pending == old(pending) && refillTarget == old(refillTarget) && sending == old(sending)
      ensures stReadBuffer == buffer && sectorsStreamed == bufmax && result == 1
    {
      hide Shape, U16, OpenedAs;
      SetSizes(bufmax, bankmax);
      stReadBuffer := buffer;
      bankID, bankSectorOffset, bankPtr, stLSN := 0, 0, 0, 0;
      JustOpened(bufmax, bankmax, View());
      result := 1;
    }

    method SetSizes(bufmax: nat, bankmax: nat)
      requires 1 <= bankmax && bufmax * 2048 <= TWO_32
      modifies this`sectorsStreamed, this`maxBankSectors, this`stbufmax, this`stbankmax
      ensures sectorsStreamed == bufmax && maxBankSectors == U16(bufmax / bankmax) && stbankmax == bankmax
      ensures stbufmax == BankStart(bankmax, maxBankSectors) <= bufmax
    {
      hide U16, U32;
      sectorsStreamed := bufmax;
      maxBankSectors := U16(bufmax / bankmax);
      WholeBanks(bufmax, bankmax);
      stbufmax := U32(maxBankSectors * bankmax);
      stbankmax := bankmax;
    }

    static lemma JustOpened(bufmax: nat, bankmax: nat, r: Ring)
      requires 1 <= bankmax && bufmax * 2048 <= TWO_32 && r.stbankmax == bankmax
      requires r.maxBankSectors == U16(bufmax / bankmax)
      requires r.stbufmax == BankStart(bankmax, r.maxBankSectors) == |r.cells|
      requires r.bankID == r.stLSN == r.offset == r.bankPtr == 0
      ensures OpenedAs(r, bufmax, bankmax) && Shape(r)
    {
      OpenedShape(bufmax, bankmax, r);
    }

    static lemma WholeBanks(bufmax: nat, bankmax: nat)
      requires 1 <= bankmax && bufmax * 2048 <= TWO_32
      ensures var n := U16(bufmax / bankmax);
              U32(n * bankmax) == BankStart(bankmax, n) <= bufmax
    {
      BankStartIsProduct(bankmax, U16(bufmax / bankmax));
      FitsBuffer(bufmax, bankmax);
    }

    /** `sceCdStStart`. */
    method StStart(lsn: nat) returns (result: int)
      requires Valid() && lsn < TWO_32
      modifies this, stReadBuffer, Target(), SendingTo()
      ensures Valid() && View() == Start(old(View()), disc, lsn)
      ensures Under() == Overtake(old(Under()), Asked(old(View()), View())) && SameTransfer()
      ensures stReadBuffer == old(stReadBuffer) && sectorsStreamed == old(sectorsStreamed) && result == 1
      ensures maxBankSectors > 0 ==> InStep(View(), disc, lsn)
    {
      hide Shape, StartBegun, Complete, Overtake, InBounds, Reaching, Same;
      ghost var r := View();
      StartShape(r, disc, lsn);
      BeginStart(lsn);
      Sync();
      result := 1;
      if maxBankSectors > 0 { StartInStep(r, disc, lsn); }
    }

    /** Before the wait. */
    method BeginStart(lsn: nat)
      requires Valid() && lsn < TWO_32
      modifies this`pending, this`refillTarget, this`requests, this`bankID, this`stLSN, this`bankPtr
      modifies this`bankSectorOffset, this`sending, Target(), SendingTo(), stReadBuffer
      ensures stbufmax <= stReadBuffer.Length && InBounds() && View() == StartBegun(old(View()), disc, lsn)
      ensures old(View()).requests <= View().requests
      ensures SendingTo() == old(SendingTo()) && Target() == {stReadBuffer}
      ensures Under() == Overtake(old(Under()), Asked(old(View()), View())) && SameTransfer()
    {
      hide Shape, StartRefill, Overtake, Reaching, Same, U32;
      ghost var r := View();
      InitFrom(lsn);
      ReadRingBuffer(lsn, stbufmax, 0);
      stLSN := U32(stLSN + stbufmax);
      assert Asked(r, View()) == [Refill(lsn, 0, stbufmax)];
    }

    /** `sceCdStSeekF`. */
    method StSeekF(lsn: nat) returns (result: int)
      requires Valid() && lsn < TWO_32
      modifies this, stReadBuffer, Target(), SendingTo()
      ensures Valid() && View() == SeekF(old(View()), disc, lsn)
      ensures Under() == Overtake(old(Under()), Asked(old(View()), View())) && SameTransfer()
      ensures stReadBuffer == old(stReadBuffer) && sectorsStreamed == old(sectorsStreamed) && result == 1
      ensures maxBankSectors > 0 ==> InStep(View(), disc, lsn)
    {
      InitFrom(lsn);
      result := StStart(lsn);
    }

    /** `sceCdStRead`; `done(k)` tells whether the drive has finished by turn `k`, and an EE mode how
        long the transfer of turn `k` takes. The buffer is what has arrived if no more refill begins
        before the last transfer is over; what becomes of it later is in `Arriving`. */
    method StRead(sectors: nat, buf: array<Cell>, mode: Mode, done: nat -> bool) returns (result: nat)
      requires Valid() && maxBankSectors > 0
      requires buf != stReadBuffer && buf !in Target() && sectors <= buf.Length && (mode.IOP? ==> buf !in SendingTo())
      modifies this, stReadBuffer, Target(), SendingTo(), buf
      ensures Valid() && stReadBuffer == old(stReadBuffer) && sectorsStreamed == old(sectorsStreamed)
      ensures View() == Read(old(View()), disc, sectors, done, 0).ring
      ensures buf[..sectors] == Delivered(old(View()), disc, sectors, mode, done, 0, [])
      ensures buf[sectors..] == old(buf[sectors..])
      ensures result == sectors
      ensures mode.IOP? ==> Under() == Overtake(old(Under()), Asked(old(View()), View())) && SameTransfer()
      ensures mode.EE? && sectors > 0 ==>
                && EndsIn(buf, sectors)
                && Arriving(old(View()), disc, sectors, mode, done, buf[..sectors], View(), Under())
      ensures forall pos: nat :: old(InStep(View(), disc, pos)) && stbankmax <= 256 ==>
                && InStep(View(), disc, pos + sectors)
                && (buf[..sectors] == Flat(disc, pos, sectors)
                    <==> Waited(old(View()), disc, sectors, done, 0)
                         && InTime(old(View()), disc, sectors, mode, done, 0, []))
    {
      hide Shape, InStep, Flat, Read, Delivered, InTime, Waited, Arriving, InBounds, Overtake, Same, Reaching;
      ghost var r := View();
      InStepReads(r, disc, sectors, mode, done);
      match mode {
        case EE(outlived) => ReadToEE(sectors, buf, mode, done);
        case IOP => ReadToIOP(sectors, buf, done); IopInTime(r, disc, sectors, done, 0, []);
      }
      result := sectors;
    }

    /** Its loop, copying to the EE. */
    method ReadToEE(sectors: nat, buf: array<Cell>, mode: Mode, done: nat -> bool)
      requires Valid() && maxBankSectors > 0 && mode.EE?
      requires buf != stReadBuffer && buf !in Target() && sectors <= buf.Length
      modifies this`pending, this`refillTarget, this`requests, this`bankID, this`stLSN, this`bankPtr
      modifies this`bankSectorOffset, this`sending, stReadBuffer, Target(), SendingTo(), buf
      ensures Valid()
      ensures View() == Read(old(View()), disc, sectors, done, 0).ring
      ensures buf[..sectors] == Delivered(old(View()), disc, sectors, mode, done, 0, [])
      ensures buf[sectors..] == old(buf[sectors..])
      ensures sectors > 0 ==>
                && EndsIn(buf, sectors)
                && Arriving(old(View()), disc, sectors, mode, done, buf[..sectors], View(), Under())
    {
      hide Turn, Shape, Read, Follows, Delivered, Arrives, Arrived, Queued, InBounds, Overtake, Reaching, Arriving;
      ghost var start, got, u := View(), [], None;
      FollowsStart(start, disc, sectors, mode, done);
      var left: nat, copied: nat, k: nat := sectors, 0, 0;
      while left > 0
        invariant Valid()
        invariant Target() <= old(Target()) + {stReadBuffer} && SendingTo() <= old(SendingTo()) + {buf}
        invariant left + copied == sectors
        invariant copied > 0 ==> EndsIn(buf, copied) && u == Under()
        invariant Follows(start, disc, sectors, mode, done, got, View(), left, k, u)
        invariant buf[..copied] == got && buf[sectors..] == old(buf[sectors..])
        decreases left
      {
        ghost var before := View();
        FollowsTurn(start, disc, sectors, mode, done, got, before, left, k, u);
        var n := TurnToEE(buf, copied, left, Outlives(mode, k), done(k));
        got, u := got + Arrived(before, disc, left, done(k), Outlives(mode, k)), Under();
        left, copied, k := left - n, copied + n, k + 1;
      }
      FollowsEnd(start, disc, sectors, mode, done, got, View(), k, u);
    }

    /** Its loop, copying to the IOP's memory. */
    method ReadToIOP(sectors: nat, buf: array<Cell>, done: nat -> bool)
      requires Valid() && maxBankSectors > 0
      requires buf != stReadBuffer && buf !in Target() && buf !in SendingTo() && sectors <= buf.Length
      modifies this`pending, this`refillTarget, this`requests, this`bankID, this`stLSN, this`bankPtr
      modifies this`bankSectorOffset, this`sending, stReadBuffer, Target(), SendingTo(), buf
      ensures Valid()
      ensures View() == Read(old(View()), disc, sectors, done, 0).ring
      ensures buf[..sectors] == Read(old(View()), disc, sectors, done, 0).out
      ensures buf[sectors..] == old(buf[sectors..])
      ensures Under() == Overtake(old(Under()), Asked(old(View()), View())) && SameTransfer()
    {
      hide Turn, Shape, Read, Continues, InBounds, Overtake, Same, Reaching;
      ghost var start, full, got := View(), Read(View(), disc, sectors, done, 0), [];
      ContinuesFrom(full, start, disc, sectors, done);
      NotYetOvertaken();
      var left: nat, copied: nat, k: nat := sectors, 0, 0;
      while left > 0
        invariant Valid()
        invariant Target() <= old(Target()) + {stReadBuffer} && SendingTo() == old(SendingTo())
        invariant left + copied == sectors
        invariant start.requests <= View().requests && SameTransfer()
        invariant Under() == Overtake(old(Under()), Asked(start, View()))
        invariant Continues(full, got, View(), disc, left, done, k)
        invariant buf[..copied] == got && buf[sectors..] == old(buf[sectors..])
        decreases left
      {
        ghost var before, was, dest := View(), sending, Dest();
        ContinuesTurn(full, got, before, disc, left, done, k);
        var n := TurnToIOP(buf, copied, left, done(k));
        AskedOn(old(Under()), start, before, View());
        SameTwice(old(sending), old(Dest()), was, dest, sending, Dest());
        got := got + Turn(before, disc, left, done(k)).out;
        left, copied, k := left - n, copied + n, k + 1;
      }
      ContinuesTo(full, got, View(), disc, done, k);
    }

    lemma NotYetOvertaken()
      requires stbufmax <= stReadBuffer.Length && InBounds()
      ensures Under() == Overtake(Under(), Asked(View(), View()))
      ensures Same(sending, Dest(), sending, Dest())
    {
      assert Asked(View(), View()) == [];
      NotOvertaken(Under());
      NothingMoved(sending, Dest());
    }

    /** The copies `full` are what has been copied and the rest of the read from `r`. */
    static ghost predicate Continues(
      full: Progress, got: seq<Cell>, r: Ring, disc: Disc, left: nat, done: nat -> bool, k: nat)
      requires Shape(r) && r.maxBankSectors > 0
    {
      var rest := Read(r, disc, left, done, k);
      full.ring == rest.ring && full.out == got + rest.out
    }

    static lemma ContinuesFrom(full: Progress, r: Ring, disc: Disc, left: nat, done: nat -> bool)
      requires Shape(r) && r.maxBankSectors > 0 && full == Read(r, disc, left, done, 0)
      ensures Continues(full, [], r, disc, left, done, 0)
    {
    }

    static lemma ContinuesTurn(
      full: Progress, got: seq<Cell>, r: Ring, disc: Disc, left: nat, done: nat -> bool, k: nat)
      requires Shape(r) && r.maxBankSectors > 0 && left > 0 && Continues(full, got, r, disc, left, done, k)
      ensures var t := Turn(r, disc, left, done(k));
              |t.out| <= left && Continues(full, got + t.out, t.ring, disc, left - |t.out|, done, k + 1)
    {
      hide Turn;
      var t := Turn(r, disc, left, done(k));
      var rest := Read(t.ring, disc, left - |t.out|, done, k + 1);
      assert got + (t.out + rest.out) == (got + t.out) + rest.out;
    }

    static lemma ContinuesTo(full: Progress, got: seq<Cell>, r: Ring, disc: Disc, done: nat -> bool, k: nat)
      requires Shape(r) && r.maxBankSectors > 0 && Continues(full, got, r, disc, 0, done, k)
      ensures full == Progress(got, r)
    {
    }

    /** The sectors of a turn, once its own refill, if any, has begun. */
    static ghost function Arrived(r: Ring, disc: Disc, left: nat, done: bool, outlives: nat): seq<Cell>
      requires Shape(r)
    {
      var t := Turn(r, disc, left, done);
      Arrives(t.out, r.bankPtr + r.offset, First(Asked(r, t.ring), outlives))
    }

    /** Once the calls `later` have been made too, the read from `start` will have delivered `got` with
        its last transfer `u` overtaken by the refills that those calls begin in time. */
    static ghost predicate Arriving(
      start: Ring, disc: Disc, sectors: nat, mode: Mode, done: nat -> bool, got: seq<Cell>, r: Ring, u: Option<Sending>)
      requires Shape(start) && start.maxBankSectors > 0 && Shape(r) && r.maxBankSectors > 0
    {
      forall later :: Legal(later) ==>
        Delivered(start, disc, sectors, mode, done, 0, later) == Finally(got, u, Exposed(r, disc, later))
    }

    static ghost function Finally(got: seq<Cell>, u: Option<Sending>, fs: seq<Refill>): seq<Cell> {
      match u
      case None => got
      case Some(x) =>
        if |x.cells| <= |got| then got[..|got| - |x.cells|] + Arrives(x.cells, x.from, First(fs, x.outlives)) else got
    }

    /** The whole read is what has been handed out and the rest of the read from `r`; at its end, see
        above. */
    static ghost predicate Follows(
      start: Ring, disc: Disc, sectors: nat, mode: Mode, done: nat -> bool,
      got: seq<Cell>, r: Ring, left: nat, k: nat, u: Option<Sending>)
    {
      && Shape(start) && start.maxBankSectors > 0 && Shape(r) && r.maxBankSectors > 0
      && Read(start, disc, sectors, done, 0).ring == Read(r, disc, left, done, k).ring
      && if left > 0 then RestFollows(start, disc, sectors, mode, done, got, r, left, k)
         else Arriving(start, disc, sectors, mode, done, got, r, u) && Ends(got, u)
    }

    static ghost predicate RestFollows(
      start: Ring, disc: Disc, sectors: nat, mode: Mode, done: nat -> bool, got: seq<Cell>, r: Ring, left: nat, k: nat)
      requires Shape(start) && start.maxBankSectors > 0 && Shape(r) && r.maxBankSectors > 0
    {
      forall later :: Legal(later) ==>
        Delivered(start, disc, sectors, mode, done, 0, later) == got + Delivered(r, disc, left, mode, done, k, later)
    }

    /** The transfer is of the last of these sectors. */
    static ghost predicate Ends(got: seq<Cell>, u: Option<Sending>) {
      u.Some? ==> |u.value.cells| <= |got| && got[|got| - |u.value.cells|..] == u.value.cells
    }

    static lemma FollowsStart(start: Ring, disc: Disc, sectors: nat, mode: Mode, done: nat -> bool)
      requires Shape(start) && start.maxBankSectors > 0
      ensures Follows(start, disc, sectors, mode, done, [], start, sectors, 0, None)
    {
      hide Shape;
    }

    static lemma FollowsTurn(
      start: Ring, disc: Disc, sectors: nat, mode: Mode, done: nat -> bool,
      got: seq<Cell>, r: Ring, left: nat, k: nat, u: Option<Sending>)
      requires left > 0 && Follows(start, disc, sectors, mode, done, got, r, left, k, u)
      ensures Shape(r)
      ensures var t, o := Turn(r, disc, left, done(k)), Outlives(mode, k);
              && |t.out| <= left
              && Follows(start, disc, sectors, mode, done, got + Arrived(r, disc, left, done(k), o),
                         t.ring, left - |t.out|, k + 1, Queued(r, disc, left, done(k), o))
    {
      hide Turn, Shape, Delivered, Exposed, Finally, Queued, Arrived, Ends;
      var t, o := Turn(r, disc, left, done(k)), Outlives(mode, k);
      var part, rest := Arrived(r, disc, left, done(k), o), left - |t.out|;
      var u' := Queued(r, disc, left, done(k), o);
      forall later | Legal(later)
        ensures got + Delivered(r, disc, left, mode, done, k, later)
             == if rest > 0 then (got + part) + Delivered(t.ring, disc, rest, mode, done, k + 1, later)
                else Finally(got + part, u', Exposed(t.ring, disc, later))
      {
        if rest > 0 {
          TurnOfRest(r, disc, left, mode, done, k, later);
          assert got + (part + Delivered(t.ring, disc, rest, mode, done, k + 1, later))
              == (got + part) + Delivered(t.ring, disc, rest, mode, done, k + 1, later);
        } else {
          LastTurn(r, disc, left, mode, done, k, later, got);
        }
      }
      LastEnds(got, r, disc, left, done(k), o);
    }

    /** A turn that is not the last of its read. */
    static lemma TurnOfRest(r: Ring, disc: Disc, left: nat, mode: Mode, done: nat -> bool, k: nat, later: seq<Call>)
      requires Shape(r) && r.maxBankSectors > 0 && left > 0 && Legal(later) && |Turn(r, disc, left, done(k)).out| < left
      ensures var t := Turn(r, disc, left, done(k));
              Delivered(r, disc, left, mode, done, k, later)
              == Arrived(r, disc, left, done(k), Outlives(mode, k))
                 + Delivered(t.ring, disc, left - |t.out|, mode, done, k + 1, later)
    {
      hide Turn, Shape, Exposed, Arrives;
      var asked := Asked(r, Turn(r, disc, left, done(k)).ring);
      assert asked + [] == asked;
    }

    /** The last turn, whose transfer the calls that follow may overtake. */
    static lemma LastTurn(
      r: Ring, disc: Disc, left: nat, mode: Mode, done: nat -> bool, k: nat, later: seq<Call>, got: seq<Cell>)
      requires Shape(r) && r.maxBankSectors > 0 && left > 0 && Legal(later)
      requires |Turn(r, disc, left, done(k)).out| == left
      ensures var t, o := Turn(r, disc, left, done(k)), Outlives(mode, k);
              got + Delivered(r, disc, left, mode, done, k, later)
              == Finally(got + Arrived(r, disc, left, done(k), o), Queued(r, disc, left, done(k), o),
                         Exposed(t.ring, disc, later))
    {
      hide Turn, Shape, Exposed, Arrives;
      var t, o := Turn(r, disc, left, done(k)), Outlives(mode, k);
      var from, asked, exposed := r.bankPtr + r.offset, Asked(r, t.ring), Exposed(t.ring, disc, later);
      var part := Arrived(r, disc, left, done(k), o);
      assert Delivered(r, disc, left, mode, done, k, later) == Arrives(t.out, from, First(asked + exposed, o)) + [];
      ArrivesLater(t.out, from, asked, exposed, o);
      assert (got + part)[..|got + part| - |part|] == got;
    }

    static lemma LastEnds(got: seq<Cell>, r: Ring, disc: Disc, left: nat, done: bool, o: nat)
      requires Shape(r)
      ensures Ends(got + Arrived(r, disc, left, done, o), Queued(r, disc, left, done, o))
    {
      hide Turn, Shape, Arrives;
    }

    static lemma ArrivesLater(cells: seq<Cell>, from: nat, a: seq<Refill>, b: seq<Refill>, n: nat)
      ensures Arrives(cells, from, First(a + b, n))
           == Arrives(Arrives(cells, from, First(a, n)), from, First(b, n - |First(a, n)|))
    {
      assert First(a + b, n) == First(a, n) + First(b, n - |First(a, n)|);
      ArrivesSplits(cells, from, First(a, n), First(b, n - |First(a, n)|));
    }

    static lemma {:induction false} ArrivesSplits(cells: seq<Cell>, from: nat, a: seq<Refill>, b: seq<Refill>)
      ensures Arrives(cells, from, a + b) == Arrives(Arrives(cells, from, a), from, b)
      decreases |a|
    {
      if a == [] {
        assert a + b == b;
      } else {
        assert (a + b)[1..] == a[1..] + b;
        ArrivesSplits(Overtaken(cells, from, a[0]), from, a[1..], b);
      }
    }

    /** Refills are counted off one after the other. */
    static lemma AskedOn(s: Option<Sending>, r: Ring, t: Ring, r': Ring)
      requires r.requests <= t.requests <= r'.requests
      ensures Overtake(Overtake(s, Asked(r, t)), Asked(t, r')) == Overtake(s, Asked(r, r'))
    {
      assert Asked(r, r') == Asked(r, t) + Asked(t, r');
      if s.Some? { ArrivesLater(s.value.cells, s.value.from, Asked(r, t), Asked(t, r'), s.value.outlives); }
    }

    static lemma FollowsEnd(
      start: Ring, disc: Disc, sectors: nat, mode: Mode, done: nat -> bool,
      got: seq<Cell>, r: Ring, k: nat, u: Option<Sending>)
      requires Follows(start, disc, sectors, mode, done, got, r, 0, k, u)
      ensures Shape(start) && start.maxBankSectors > 0 && Shape(r) && r.maxBankSectors > 0
      ensures r == Read(start, disc, sectors, done, 0).ring
      ensures Arriving(start, disc, sectors, mode, done, got, r, u)
      ensures got == Delivered(start, disc, sectors, mode, done, 0, [])
    {
      hide Shape;
      assert Legal([]) && Exposed(r, disc, []) == [];
      assert u.Some? ==> got[..|got| - |u.value.cells|] + u.value.cells == got;
    }

    static lemma InStepReads(r: Ring, disc: Disc, sectors: nat, mode: Mode, done: nat -> bool)
      requires Shape(r) && r.maxBankSectors > 0
      ensures forall pos: nat :: InStep(r, disc, pos) && r.stbankmax <= 256 ==>
                && InStep(Read(r, disc, sectors, done, 0).ring, disc, pos + sectors)
                && (Delivered(r, disc, sectors, mode, done, 0, []) == Flat(disc, pos, sectors)
                    <==> Waited(r, disc, sectors, done, 0) && InTime(r, disc, sectors, mode, done, 0, []))
    {
      hide Read, InStep, Flat, Delivered, Waited, InTime;
      forall pos: nat | InStep(r, disc, pos) && r.stbankmax <= 256
        ensures InStep(Read(r, disc, sectors, done, 0).ring, disc, pos + sectors)
        ensures Delivered(r, disc, sectors, mode, done, 0, []) == Flat(disc, pos, sectors)
                <==> Waited(r, disc, sectors, done, 0) && InTime(r, disc, sectors, mode, done, 0, [])
      {
        ReadIsFlat(r, disc, pos, sectors, done, 0);
        DeliversFlat(r, disc, pos, sectors, mode, done, 0, []);
      }
    }

    /** One turn of the loop of `sceCdStRead` that copies to the EE; `n` is its `sectorstoread`. */
    method TurnToEE(buf: array<Cell>, copied: nat, left: nat, outlives: nat, done: bool) returns (n: nat)
      requires Valid() && maxBankSectors > 0 && left > 0
      requires buf != stReadBuffer && buf !in Target() && copied + left <= buf.Length
      modifies this`pending, this`refillTarget, this`requests, this`bankID, this`stLSN, this`bankPtr
      modifies this`bankSectorOffset, this`sending, stReadBuffer, Target(), SendingTo(), buf
      ensures Valid()
      ensures Target() <= old(Target()) + {stReadBuffer}
      ensures 0 < n <= left && n == |Turn(old(View()), disc, left, done).out|
      ensures View() == Turn(old(View()), disc, left, done).ring
      ensures buf[..copied + n] == old(buf[..copied]) + Arrived(old(View()), disc, left, done, outlives)
      ensures buf[copied + left..] == old(buf[copied + left..])
      ensures EndsIn(buf, copied + n) && Under() == Queued(old(View()), disc, left, done, outlives)
    {
      hide BankDone, Ready, Shape, Turn, Arrives, Overtake, Reaching, InBounds, Queued, Arrived, First, BankStart;
      ghost var r, before := View(), buf[..];
      ghost var out := Turn(r, disc, left, done).out;
      TurnUnfolds(r, disc, left, done);
      n := CopyTurn(buf, copied, left, true, outlives, done);
      ghost var ready := View();
      assert ready == Ready(r, disc, done) && n == |out|;
      EndQueued(buf, before, copied, n, left, out, outlives);
      assert Asked(ready, View()) == Asked(r, View());
      TurnQueues(r, disc, left, done, outlives, View());
    }

    static lemma TurnQueues(r: Ring, disc: Disc, left: nat, done: bool, outlives: nat, r': Ring)
      requires Shape(r) && r' == Turn(r, disc, left, done).ring
      ensures var out, from, asked := Turn(r, disc, left, done).out, r.bankPtr + r.offset, Asked(r, r');
              && Arrived(r, disc, left, done, outlives) == Arrives(out, from, First(asked, outlives))
              && Queued(r, disc, left, done, outlives) == Overtake(Some(Sending(out, from, outlives)), asked)
    {
      hide Turn, Shape, Arrives, Overtake;
    }

    static lemma Assembled(before: seq<Cell>, now: seq<Cell>, at: nat, n: nat, left: nat, part: seq<Cell>)
      requires |before| == |now| && n <= left && at + left <= |before|
      requires now[..at] == before[..at] && now[at..at + n] == part && now[at + n..] == before[at + n..]
      ensures now[..at + n] == before[..at] + part && now[at + left..] == before[at + left..]
    {
      assert now[..at + n] == now[..at] + now[at..at + n];
      assert now[at + left..] == now[at + n..][left - n..] == before[at + n..][left - n..];
    }

    /** The second half of a turn that has queued the copy of `out`. */
    method EndQueued(
      buf: array<Cell>, ghost before: seq<Cell>, at: nat, n: nat, left: nat, ghost out: seq<Cell>, ghost outlives: nat)
      requires Valid() && maxBankSectors > 0 && n == |out| && bankSectorOffset + |out| <= maxBankSectors
      requires bankSectorOffset + |out| == maxBankSectors ==> Shape(View().(offset := 0))
      requires |out| <= left && at + left <= |before| == buf.Length && buf[..at + |out|] == before[..at] + out
      requires forall x :: at + |out| <= x < buf.Length ==> buf[x] == before[x]
      requires sending == Some(Transfer(stReadBuffer, bankPtr + bankSectorOffset, |out|, buf, at, outlives))
      modifies this`pending, this`refillTarget, this`requests, this`bankID, this`stLSN, this`bankPtr
      modifies this`bankSectorOffset, this`sending, Target(), buf, stReadBuffer
      ensures var moved := old(View()).(offset := old(bankSectorOffset) + |out|);
              && (moved.offset == moved.maxBankSectors ==>
                    Shape(moved.(offset := 0)) && View() == BankDone(moved, disc))
              && (moved.offset < moved.maxBankSectors ==> View() == moved)
      ensures Valid() && old(View()).requests <= View().requests && Target() <= old(Target()) + {stReadBuffer}
      ensures EndsIn(buf, at + |out|)
      ensures var from, asked := old(bankPtr) + old(bankSectorOffset), Asked(old(View()), View());
              && buf[..at + |out|] == before[..at] + Arrives(out, from, First(asked, outlives))
              && Under() == Overtake(Some(Sending(out, from, outlives)), asked)
      ensures buf[at + left..] == before[at + left..]
    {
      hide BankDone, Shape, Arrives, Overtake, Same, Reaching, InBounds;
      ghost var r, copy, queued := View(), buf[..], sending.value;
      assert copy[..at] == copy[..at + n][..at] == before[..at];
      assert copy[at + n..] == before[at + n..];
      JustQueued(queued, stReadBuffer, copy, out);
      EndTurn(n);
      assert queued.dest == buf && buf in SendingTo();
      QueuedArrives(copy, buf[..], queued, sending, stReadBuffer, out, Asked(r, View()));
      Assembled(before, buf[..], at, n, left, Arrives(out, queued.from, First(Asked(r, View()), outlives)));
    }

    /** One turn that copies to the IOP's memory, while a transfer to the EE may be under way. */
    method TurnToIOP(buf: array<Cell>, copied: nat, left: nat, done: bool) returns (n: nat)
      requires Valid() && maxBankSectors > 0 && left > 0
      requires buf != stReadBuffer && buf !in Target() && buf !in SendingTo() && copied + left <= buf.Length
      modifies this`pending, this`refillTarget, this`requests, this`bankID, this`stLSN, this`bankPtr
      modifies this`bankSectorOffset, this`sending, stReadBuffer, Target(), SendingTo(), buf
      ensures Valid()
      ensures Target() <= old(Target()) + {stReadBuffer} && SendingTo() == old(SendingTo())
      ensures 0 < n <= left && n == |Turn(old(View()), disc, left, done).out|
      ensures View() == Turn(old(View()), disc, left, done).ring
      ensures buf[..copied + n] == old(buf[..copied]) + Turn(old(View()), disc, left, done).out
      ensures buf[copied + left..] == old(buf[copied + left..])
      ensures Under() == Overtake(old(Under()), Asked(old(View()), View())) && SameTransfer()
    {
      hide BankDone, Ready, Shape, Turn, Overtake, Same, Reaching, InBounds;
      ghost var r := View();
      TurnUnfolds(r, disc, left, done);
      n := CopyTurn(buf, copied, left, false, 0, done);
      EndTurn(n);
      assert Asked(r, View()) == Asked(r, Turn(r, disc, left, done).ring);
    }

    /** A transfer from the present ring to the sectors of `buf` that end at `end`. */
    ghost predicate EndsIn(buf: array<Cell>, end: nat)
      reads this
    {
      && sending.Some? && sending.value.source == stReadBuffer && sending.value.dest == buf
      && sending.value.at + sending.value.count == end
    }

    /** The transfer a turn has queued, once the turn's own refill, if any, has begun. */
    static ghost function Queued(r: Ring, disc: Disc, left: nat, done: bool, outlives: nat): Option<Sending>
      requires Shape(r)
    {
      var t := Turn(r, disc, left, done);
      Overtake(Some(Sending(t.out, r.bankPtr + r.offset, outlives)), Asked(r, t.ring))
    }

    static lemma JustQueued(t: Transfer, ring: array<Cell>, dest: seq<Cell>, out: seq<Cell>)
      requires t.source == ring && t.at + t.count <= |dest| && dest[..t.at + t.count] == dest[..t.at] + out
      ensures Reaching(Some(t), ring, dest) == Some(Sending(out, t.from, t.outlives))
    {
      assert dest[t.at..t.at + t.count] == dest[..t.at + t.count][t.at..] == out;
    }

    /** What a queued transfer has left at its destination. */
    static lemma QueuedArrives(
      copy: seq<Cell>, now: seq<Cell>, t: Transfer, t': Option<Transfer>, ring: array<Cell>,
      out: seq<Cell>, fs: seq<Refill>)
      requires t.source == ring && t.count == |out| && Same(Some(t), copy, t', now)
      requires Reaching(t', ring, now) == Overtake(Some(Sending(out, t.from, t.outlives)), fs)
      ensures t'.Some? && t'.value == t.(outlives := t'.value.outlives) && t.at + t.count <= |now| == |copy|
      ensures now[..t.at] == copy[..t.at] && now[t.at + t.count..] == copy[t.at + t.count..]
      ensures now[t.at..t.at + t.count] == Arrives(out, t.from, First(fs, t.outlives))
    {
      hide Arrives;
    }

    /** The second half of a turn: count, and go on to the next bank if this one has been read out. */
    method EndTurn(n: nat)
      requires Valid() && maxBankSectors > 0 && bankSectorOffset + n <= maxBankSectors
      requires bankSectorOffset + n == maxBankSectors ==> Shape(View().(offset := 0))
      modifies this`pending, this`refillTarget, this`requests, this`bankID, this`stLSN, this`bankPtr
      modifies this`bankSectorOffset, this`sending, Target(), SendingTo(), stReadBuffer
      ensures var moved := old(View()).(offset := old(bankSectorOffset) + n);
              && (moved.offset == moved.maxBankSectors ==>
                    Shape(moved.(offset := 0)) && View() == BankDone(moved, disc))
              && (moved.offset < moved.maxBankSectors ==> View() == moved)
      ensures Valid() && old(View()).requests <= View().requests
      ensures Under() == Overtake(old(Under()), Asked(old(View()), View())) && SameTransfer()
      ensures Target() <= old(Target()) + {stReadBuffer} && SendingTo() == old(SendingTo())
    {
      hide BankDone, Shape, Overtake, Reaching;
      ghost var r := View();
      NotOvertaken(Under());
      bankSectorOffset := bankSectorOffset + n;
      assert View() == r.(offset := r.offset + n);
      if bankSectorOffset >= maxBankSectors {
        assert View().(offset := 0) == r.(offset := 0);
        NextBank();
        assert Asked(r, View()) == Asked(r.(offset := r.offset + n), View());
      } else {
        ShapeOfOffset(r, n);
        assert Asked(r, View()) == [];
      }
    }

    /** The first half of a turn: settle the refill if need be, and copy. */
    method CopyTurn(buf: array<Cell>, copied: nat, left: nat, ee: bool, outlives: nat, done: bool) returns (n: nat)
      requires Valid() && maxBankSectors > 0 && left > 0 && (!ee ==> buf !in SendingTo())
      requires buf != stReadBuffer && buf !in Target() && copied + left <= buf.Length
      modifies this`pending, this`sending, Target(), buf
      ensures Valid() && View() == Ready(old(View()), disc, done)
      ensures Target() <= old(Target())
      ensures bankSectorOffset <= maxBankSectors && n == CopyCount(View(), left) && 0 < n <= left
      ensures var from := bankPtr + bankSectorOffset;
              && from + n <= stbufmax && buf[..copied + n] == old(buf[..copied]) + View().cells[from..from + n]
              && if ee then sending == Some(Transfer(stReadBuffer, from, n, buf, copied, outlives))
                 else sending == old(sending) && Dest() == old(Dest())
      ensures forall x :: copied + n <= x < buf.Length ==> buf[x] == old(buf[x])
    {
      hide Ready, Shape;
      ShapeFacts(View(), left);
      var room := maxBankSectors - bankSectorOffset;
      n := if left > room then room else left;
      Settle(done);
      if ee { EEMemCpy(buf, copied, n, outlives); } else { MemCpy(buf, copied, n); }
    }

    static lemma TurnUnfolds(r: Ring, disc: Disc, left: nat, done: bool)
      requires Shape(r)
      ensures r.offset <= r.maxBankSectors
      ensures var n, ready, t := CopyCount(r, left), Ready(r, disc, done), Turn(r, disc, left, done);
              var from, moved := r.bankPtr + r.offset, ready.(offset := r.offset + n);
              && from + n <= |ready.cells|
              && t.out == ready.cells[from..from + n]
              && (moved.offset >= moved.maxBankSectors ==>
                    Shape(moved.(offset := 0)) && t.ring == BankDone(moved, disc))
              && (moved.offset < moved.maxBankSectors ==> t.ring == moved)
    {
      hide BankDone, Ready, BankStart;
      BanksApart(r.bankID, r.stbankmax, r.maxBankSectors);
    }

    /** What a copy waits for. */
    method Settle(done: bool)
      requires Valid()
      modifies this`pending, Target()
      ensures Valid() && View() == Ready(old(View()), disc, done) && Target() <= old(Target())
    {
      if done { Sync(); }
      if stbankmax < 2 { Sync(); }
    }

    static lemma ShapeFacts(r: Ring, left: nat)
      requires Shape(r)
      ensures r.offset <= r.maxBankSectors && r.bankPtr + r.maxBankSectors <= r.stbufmax
      ensures r.maxBankSectors > 0 ==> r.offset < r.maxBankSectors
    {
      BanksApart(r.bankID, r.stbankmax, r.maxBankSectors);
    }

    static lemma BankFacts(r: Ring)
      requires Shape(r.(offset := 0))
      ensures r.bankID < r.stbankmax && r.bankPtr + r.maxBankSectors <= r.stbufmax
      ensures r.bankID % 2 == 1 ==> r.maxBankSectors <= r.bankPtr
    {
      BanksApart(r.bankID, r.stbankmax, r.maxBankSectors);
    }

    static lemma ShapeOfOffset(r: Ring, n: nat)
      requires Shape(r) && r.offset + n < r.maxBankSectors
      ensures Shape(r.(offset := r.offset + n))
    {
    }

    /** `memcpy` from the place in the ring. */
    method MemCpy(buf: array<Cell>, at: nat, n: nat)
      requires Valid() && bankPtr + bankSectorOffset + n <= stbufmax
      requires buf != stReadBuffer && at + n <= buf.Length
      modifies buf
      ensures View() == old(View())
      ensures buf[..at + n] == old(buf[..at]) + View().cells[bankPtr + bankSectorOffset..bankPtr + bankSectorOffset + n]
      ensures forall x :: at + n <= x < buf.Length ==> buf[x] == old(buf[x])
    {
      forall i | 0 <= i < n {
        buf[at + i] := stReadBuffer[bankPtr + bankSectorOffset + i];
      }
    }

    /** `EE_memcpy` from there: wait for the transfer before, then queue this one. */
    method EEMemCpy(buf: array<Cell>, at: nat, n: nat, outlives: nat)
      requires Valid() && bankPtr + bankSectorOffset + n <= stbufmax
      requires buf != stReadBuffer && buf !in Target() && at + n <= buf.Length
      modifies this`sending, buf
      ensures Valid() && View() == old(View())
      ensures buf[..at + n] == old(buf[..at]) + View().cells[bankPtr + bankSectorOffset..bankPtr + bankSectorOffset + n]
      ensures forall x :: at + n <= x < buf.Length ==> buf[x] == old(buf[x])
      ensures sending == Some(Transfer(stReadBuffer, bankPtr + bankSectorOffset, n, buf, at, outlives))
    {
      hide Shape;
      EEDMASync();
      MemCpy(buf, at, n);
      sending := Some(Transfer(stReadBuffer, bankPtr + bankSectorOffset, n, buf, at, outlives));
    }

    /** `EE_DMASync`: the transfer before is over. */
    method EEDMASync()
      modifies this`sending
      ensures sending == None
    {
      sending := None;
    }

    /** The end of a bank inside `sceCdStRead`: refill, then move on. */
    method NextBank()
      requires stbufmax <= stReadBuffer.Length && Shape(View().(offset := 0)) && InBounds() && maxBankSectors > 0
      modifies this`pending, this`refillTarget, this`requests, this`bankID, this`stLSN, this`bankPtr
      modifies this`bankSectorOffset, this`sending, Target(), SendingTo(), stReadBuffer
      ensures Valid() && View() == BankDone(old(View()), disc)
      ensures old(View()).requests <= View().requests
      ensures Under() == Overtake(old(Under()), Asked(old(View()), View())) && SameTransfer()
      ensures Target() <= old(Target()) + {stReadBuffer} && SendingTo() == old(SendingTo())
      ensures old(RefillInRing()) ==> RefillInRing() && stReadBuffer[stbufmax..] == old(stReadBuffer[stbufmax..])
    {
      hide StartRefill, Shape, DueRefill, StreamRing.NextBank;
      ghost var r := View();
      BankDoneKeepsShape(r, disc);
      DueIsAsked(r, disc);
      var sectorsToRefill := RefillIfDue();
      Advance(sectorsToRefill);
    }

    static ghost function Due(r: Ring): seq<Refill>
      requires Shape(r.(offset := 0))
    {
      match DueRefill(r)
      case None => []
      case Some(f) => [f]
    }

    static lemma DueIsAsked(r: Ring, disc: Disc)
      requires Shape(r.(offset := 0))
      ensures r.requests <= BankDone(r, disc).requests && Asked(r, BankDone(r, disc)) == Due(r)
    {
    }

    static lemma NotOvertaken(s: Option<Sending>)
      ensures Overtake(s, []) == s
    {
    }

    /** On to the next bank. */
    method Advance(sectorsToRefill: nat)
      requires stbufmax <= stReadBuffer.Length
      modifies this`bankID, this`stLSN, this`bankPtr, this`bankSectorOffset
      ensures View() == StreamRing.NextBank(old(View()), sectorsToRefill)
    {
      bankID := U8(bankID + 1);
      stLSN := U32(stLSN + sectorsToRefill);
      if bankID >= stbankmax { bankID := 0; }
      BankStartIsProduct(bankID, maxBankSectors);
      bankPtr := bankID * maxBankSectors;
      bankSectorOffset := 0;
    }

    /** The choice of the refill. */
    method RefillIfDue() returns (sectorsToRefill: nat)
      requires stbufmax <= stReadBuffer.Length && Shape(View().(offset := 0)) && InBounds()
      modifies this`pending, this`refillTarget, this`requests, this`sending, Target(), SendingTo(), stReadBuffer
      ensures match DueRefill(old(View()))
              case None => sectorsToRefill == 0 && View() == old(View())
              case Some(f) => sectorsToRefill == f.count && View() == StartRefill(old(View()), disc, f)
      ensures InBounds() && Target() <= old(Target()) + {stReadBuffer}
      ensures Under() == Overtake(old(Under()), Due(old(View()))) && SameTransfer()
      ensures SendingTo() == old(SendingTo())
      ensures old(RefillInRing()) ==> RefillInRing() && stReadBuffer[stbufmax..] == old(stReadBuffer[stbufmax..])
    {
      hide StartRefill, Shape;
      BankFacts(View());
      NotOvertaken(Under());
      sectorsToRefill := 0;
      if bankID % 2 == 1 {
        sectorsToRefill := 2 * maxBankSectors;
        ReadRingBuffer(stLSN, sectorsToRefill, bankPtr - maxBankSectors);
      } else if stbankmax - bankID == 1 {
        sectorsToRefill := maxBankSectors;
        ReadRingBuffer(stLSN, sectorsToRefill, bankPtr);
      }
    }
  }
}
