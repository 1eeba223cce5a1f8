/** The streaming ring buffer of CDVDMAN as a value: the fields of `async_config` that streaming
    uses, the sectors of the read buffer, and the refill that the drive is still working on.
    All positions count whole 2048-byte sectors. */
module StreamRing {
  import opened Common

  type Sector = int            // the contents of one sector
  type Disc = int -> Sector    // what the disc holds at every logical sector number
  type Cell = Option<Sector>   // None: never filled, or the target of an unfinished refill

  /** A read of `count` sectors from `lsn` into ring positions `base..base+count`. */
  datatype Refill = Refill(lsn: nat, base: nat, count: nat)

  datatype Ring = Ring(
    maxBankSectors: nat,      // u16
    stbufmax: nat,
    stbankmax: nat,
    bankID: nat,              // u8
    stLSN: nat,               // unsigned int
    offset: nat,              // ringbuff_bank_sector_offset
    bankPtr: nat,             // ringbuff_bank_ptr - stReadBuffer
    cells: seq<Cell>,
    pending: Option<Refill>,
    requests: seq<Refill>)    // every read asked of the drive so far, oldest first

  /** Sector numbers are 32-bit, so the disc repeats after 2^32 sectors. */
  function DiscAt(disc: Disc, lsn: int): Sector { disc(U32(lsn)) }

  predicate Covers(f: Refill, x: int) { f.base <= x < f.base + f.count }

  /** The field ranges that every operation keeps, for any bank count. */
  predicate Shape(r: Ring) {
    && 1 <= r.stbankmax
    && r.maxBankSectors < TWO_16
    && r.stLSN < TWO_32
    && r.stbufmax == BankStart(r.stbankmax, r.maxBankSectors)
    && r.stbufmax * 2048 <= TWO_32
    && |r.cells| == r.stbufmax
    && r.bankID < r.stbankmax && r.bankID < TWO_8
    && r.bankPtr == BankStart(r.bankID, r.maxBankSectors)
    && r.offset <= r.maxBankSectors
    && (r.maxBankSectors > 0 ==> r.offset < r.maxBankSectors)
  }

  /** Ring position of bank `id`: the product `id * n` (see BankStartIsProduct), written as a sum. */
  function BankStart(id: nat, n: nat): nat {
    if id == 0 then 0 else BankStart(id - 1, n) + n
  }

  /* ---- The two internal routines ---- */

  /** Cells with the sectors of a refill in them. */
  function Landed(cells: seq<Cell>, disc: Disc, f: Refill): (c: seq<Cell>)
    ensures |c| == |cells|
  {
    seq(|cells|, x requires 0 <= x < |cells| =>
      if Covers(f, x) then Some(DiscAt(disc, f.lsn + (x - f.base))) else cells[x])
  }

  /** Cells in which a refill has just begun. */
  function Begun(cells: seq<Cell>, f: Refill): (c: seq<Cell>)
    ensures |c| == |cells|
  {
    seq(|cells|, x requires 0 <= x < |cells| => if Covers(f, x) then None else cells[x])
  }

  /** The outstanding refill, if there is one, reaches the ring. */
  function Complete(r: Ring, disc: Disc): (r': Ring)
    ensures |r'.cells| == |r.cells|
    ensures r' == r.(cells := r'.cells, pending := None)
  {
    match r.pending
    case None => r
    case Some(f) => r.(cells := Landed(r.cells, disc, f), pending := None)
  }

  /** `stReadRingBuffer`: wait for the previous refill, then start this one. */
  function StartRefill(r: Ring, disc: Disc, f: Refill): (r': Ring)
    ensures |r'.cells| == |r.cells|
    ensures r' == r.(cells := r'.cells, pending := Some(f), requests := r.requests + [f])
  {
    var waited := Complete(r, disc);
    waited.(cells := Begun(waited.cells, f), pending := Some(f), requests := waited.requests + [f])
  }

  /** `stInit`: back to the start of the ring. */
  function Rewind(r: Ring, lsn: nat): Ring {
    r.(bankID := 0, offset := 0, bankPtr := 0, stLSN := lsn)
  }

  /* ---- The exported operations ---- */

  /** The state `sceCdStInit` leaves: whole banks only, nothing read yet. */
  function Init(bufmax: nat, bankmax: nat): Ring
    requires 1 <= bankmax
  {
    var n := U16(bufmax / bankmax);
    Ring(n, BankStart(bankmax, n), bankmax, 0, 0, 0, 0, seq(BankStart(bankmax, n), _ => None), None, [])
  }

  /** `sceCdStStart`: fill the whole ring and wait for it. */
  function Start(r: Ring, disc: Disc, lsn: nat): Ring { Complete(StartBegun(r, disc, lsn), disc) }

  /** Before the wait. */
  function StartBegun(r: Ring, disc: Disc, lsn: nat): Ring {
    var begun := StartRefill(Rewind(r, lsn), disc, Refill(lsn, 0, r.stbufmax));
    begun.(stLSN := U32(begun.stLSN + r.stbufmax))
  }

  /** `sceCdStSeekF`. */
  function SeekF(r: Ring, disc: Disc, lsn: nat): Ring { Start(Rewind(r, lsn), disc, lsn) }

  /** How many sectors one turn of the loop in `sceCdStRead` copies. */
  function CopyCount(r: Ring, left: nat): nat
    requires r.offset <= r.maxBankSectors
  {
    var room := r.maxBankSectors - r.offset;
    if left > room then room else left
  }

  /** The refill due once a bank has been read out: after an odd bank, it and the one before; after an
      unpaired last bank, that one. */
  function DueRefill(r: Ring): Option<Refill>
    requires Shape(r.(offset := 0))
  {
    var n := r.maxBankSectors;
    if r.bankID % 2 == 1 then Some(Refill(r.stLSN, BackOneBank(r), 2 * n))
    else if r.stbankmax - r.bankID == 1 then Some(Refill(r.stLSN, r.bankPtr, n))
    else None
  }

  /** What happens once a bank has been read out: a refill or none, then the next bank. */
  function BankDone(r: Ring, disc: Disc): Ring
    requires Shape(r.(offset := 0))
  {
    match DueRefill(r)
    case None => NextBank(r, 0)
    case Some(f) => NextBank(StartRefill(r, disc, f), f.count)
  }

  /** The counters at the end of a bank, `count` sectors having been asked for. */
  function NextBank(r: Ring, count: nat): Ring {
    var id := U8(r.bankID + 1);
    var next := if id >= r.stbankmax then 0 else id;
    r.(bankID := next, stLSN := U32(r.stLSN + count), bankPtr := BankStart(next, r.maxBankSectors), offset := 0)
  }

  function BackOneBank(r: Ring): nat
    requires Shape(r.(offset := 0)) && r.bankID % 2 == 1
  {
    BanksApart(r.bankID - 1, r.bankID, r.maxBankSectors);
    r.bankPtr - r.maxBankSectors
  }

  /** The sectors a read has copied out so far, and the state it has reached. */
  datatype Progress = Progress(out: seq<Cell>, ring: Ring)

  /** The ring as a copy finds it: `done` says that the drive finished its refill before, and a
      ring of one bank is synchronized first. */
  function Ready(r: Ring, disc: Disc, done: bool): (r': Ring)
    ensures |r'.cells| == |r.cells| && r' == r.(cells := r'.cells, pending := r'.pending)
  {
    if done || r.stbankmax < 2 then Complete(r, disc) else r
  }

  /** One turn of the loop. */
  function Turn(r: Ring, disc: Disc, left: nat, done: bool): (p: Progress)
    requires Shape(r)
    ensures Shape(p.ring)
    ensures |p.out| == CopyCount(r, left)
    ensures p.ring.maxBankSectors == r.maxBankSectors && p.ring.stbankmax == r.stbankmax
    ensures p.ring.stbufmax == r.stbufmax && r.requests <= p.ring.requests
  {
    var ready := Ready(r, disc, done);
    var n, from := CopyCount(ready, left), ready.bankPtr + ready.offset;
    var moved := ready.(offset := ready.offset + n);
    BanksApart(r.bankID, r.stbankmax, r.maxBankSectors);
    if moved.offset >= moved.maxBankSectors then
      BankDoneKeepsShape(moved, disc);
      Progress(ready.cells[from..from + n], BankDone(moved, disc))
    else
      Progress(ready.cells[from..from + n], moved)
  }

  /** `sceCdStRead`; `done(k)` is the drive's answer at turn `k`. */
  function Read(r: Ring, disc: Disc, left: nat, done: nat -> bool, k: nat): (p: Progress)
    requires Shape(r) && r.maxBankSectors > 0
    ensures Shape(p.ring)
    ensures |p.out| == left
    ensures p.ring.maxBankSectors == r.maxBankSectors && p.ring.stbankmax == r.stbankmax
    ensures p.ring.stbufmax == r.stbufmax && r.requests <= p.ring.requests
    decreases left
  {
    if left == 0 then Progress([], r)
    else
      var t := Turn(r, disc, left, done(k));
      var rest := Read(t.ring, disc, left - |t.out|, done, k + 1);
      Progress(t.out + rest.out, rest.ring)
  }

  /* ---- Shape ---- */

  lemma {:induction false} BankStartIsProduct(id: nat, n: nat)
    ensures BankStart(id, n) == id * n
  {
    if id > 0 {
      BankStartIsProduct(id - 1, n);
      assert id * n == (id - 1) * n + n;
    }
  }

  lemma {:induction false} BanksApart(a: nat, b: nat, n: nat)
    requires a < b
    ensures BankStart(a, n) + n <= BankStart(b, n)
    decreases b
  {
    if a < b - 1 {
      BanksApart(a, b - 1, n);
    }
  }

  lemma BankDoneKeepsShape(r: Ring, disc: Disc)
    requires Shape(r.(offset := 0))
    ensures Shape(BankDone(r, disc))
  {
    BanksApart(r.bankID, r.stbankmax, r.maxBankSectors);
    if r.bankID % 2 == 1 {
      BanksApart(r.bankID - 1, r.bankID, r.maxBankSectors);
    }
  }

  lemma InitShape(bufmax: nat, bankmax: nat)
    requires 1 <= bankmax && bufmax * 2048 <= TWO_32
    ensures Shape(Init(bufmax, bankmax))
  {
    var n := U16(bufmax / bankmax);
    BankStartIsProduct(bankmax, n);
    FitsBuffer(bufmax, bankmax);
    hide BankStart;
    assert BankStart(0, n) == 0 by { BankStartIsProduct(0, n); }
  }

  /** What the buffer held before, and a refill still under way in it, do not matter. */
  predicate OpenedAs(r: Ring, bufmax: nat, bankmax: nat)
    requires 1 <= bankmax
  {
    && |r.cells| == |Init(bufmax, bankmax).cells|
    && r == Init(bufmax, bankmax).(cells := r.cells, pending := r.pending, requests := r.requests)
  }

  lemma OpenedShape(bufmax: nat, bankmax: nat, r: Ring)
    requires 1 <= bankmax && bufmax * 2048 <= TWO_32 && OpenedAs(r, bufmax, bankmax)
    ensures Shape(r)
  {
    InitShape(bufmax, bankmax);
  }

  /** `n` is the number of whole sectors a bank gets, and only its low 16 bits are kept; what does not
      fill the banks is left out. The ring is at its start, and its sector is 0. */
  lemma OpenedSizes(bufmax: nat, bankmax: nat, r: Ring, n: nat)
    requires 1 <= bankmax && OpenedAs(r, bufmax, bankmax)
    requires n * bankmax <= bufmax < (n + 1) * bankmax
    ensures r.maxBankSectors == n % 0x1_0000 && r.stbufmax == n % 0x1_0000 * bankmax == |r.cells|
    ensures r.stbankmax == bankmax && r.bankID == 0 && r.offset == 0 && r.bankPtr == 0 && r.stLSN == 0
  {
    QuotientIs(bufmax, bankmax, n);
    BankStartIsProduct(bankmax, U16(bufmax / bankmax));
    hide BankStart;
  }

  lemma QuotientIs(x: nat, d: nat, n: nat)
    requires 0 < d && n * d <= x < (n + 1) * d
    ensures x / d == n
  {
    var q := x / d;
    assert q * d <= x < (q + 1) * d;
    if q < n { SmallerFactor(q + 1, n, d); } else if q > n { SmallerFactor(n + 1, q, d); }
  }

  lemma FitsBuffer(bufmax: nat, bankmax: nat)
    requires 1 <= bankmax
    ensures U16(bufmax / bankmax) * bankmax <= bufmax
  {
    var q := bufmax / bankmax;
    WholeQuotient(bufmax, bankmax);
    SmallerFactor(U16(q), q, bankmax);
  }

  lemma WholeQuotient(x: nat, d: nat)
    requires d > 0
    ensures (x / d) * d <= x
  {
  }

  lemma SmallerFactor(a: nat, b: nat, d: nat)
    requires a <= b
    ensures a * d <= b * d
  {
  }

  lemma StartShape(r: Ring, disc: Disc, lsn: nat)
    requires Shape(r) && lsn < TWO_32
    ensures var r' := Start(r, disc, lsn);
            Shape(r') && r'.maxBankSectors == r.maxBankSectors && r'.stbankmax == r.stbankmax
  {
  }
}
