/** The play history of the browser: a table of 21 entries that every launch updates. */
module History {
  import opened Common
  import opened Words

  const MAX_HISTORY_ENTRIES := 21

  /** `struct HistoryEntry`; the bit mask as its eight bits, bit 0 last. */
  datatype Entry = Entry(name: string, launchCount: nat, bitmask: Word, shiftAmount: nat, padding: nat, dateStamp: nat)

  /** Field widths. A name of 16 characters has no terminator. */
  predicate ValidEntry(e: Entry) {
    |e.name| <= 16 && e.launchCount < 256 && |e.bitmask| == 8
  }

  type Table = seq<Entry>

  predicate ValidTable(t: Table) {
    |t| == MAX_HISTORY_ENTRIES && forall i :: 0 <= i < |t| ==> ValidEntry(t[i])
  }

  /* ---- One entry ---- */

  predicate BitSet(e: Entry, bit: nat)
    requires |e.bitmask| == 8 && bit < 6
  {
    e.bitmask[7 - bit]
  }

  /** `(bitmask & 0x3F) == 0x3F` */
  predicate Full(e: Entry)
    requires |e.bitmask| == 8
  {
    e.bitmask[2..] == [true, true, true, true, true, true]
  }

  /** The launch count of an entry that is not full, counted up and clamped. */
  function CountedUp(e: Entry): nat {
    if U8(e.launchCount + 1) >= 0x80 then 0x7F else U8(e.launchCount + 1)
  }

  /** Whether this launch marks another bit. */
  predicate NeedsBit(e: Entry)
    requires |e.bitmask| == 8
  {
    !Full(e) && CountedUp(e) >= 14 && (CountedUp(e) - 14) % 10 != 0
  }

  /** An entry after a launch; `bit` is the one the random loop settled on, if it ran. */
  function Relaunched(e: Entry, bit: nat): Entry
    requires |e.bitmask| == 8 && bit < 6
  {
    if !Full(e) then
      var counted := e.(launchCount := CountedUp(e));
      if NeedsBit(e) then counted.(shiftAmount := bit, bitmask := e.bitmask[7 - bit := true]) else counted
    else if e.launchCount < 0x40 then e.(launchCount := e.launchCount + 1)
    else e.(launchCount := Value(e.bitmask[2..]), shiftAmount := 7)
  }

  ghost predicate LaunchedTo(e: Entry, e': Entry)
    requires |e.bitmask| == 8
  {
    exists bit :: 0 <= bit < 6 && (NeedsBit(e) ==> !BitSet(e, bit)) && e' == Relaunched(e, bit)
  }

  function Fresh(name: string, date: nat, padding: nat): Entry {
    Entry(name, 1, [false, false, false, false, false, false, false, true], 0, padding, date)
  }

  /* ---- The table ---- */

  /** The string comparison: behind a name that fills its field it reads on into the launch count, and
      ends there only if that is zero. */
  predicate Same(e: Entry, name: string) { e.name == name && (|name| <= 15 || e.launchCount == 0) }

  predicate Known(t: Table, name: string) { exists i :: 0 <= i < |t| && Same(t[i], name) }

  predicate HasBlank(t: Table) { exists i :: 0 <= i < |t| && t[i].launchCount == 0 }

  /** `slot` is the first entry with the least launch count among the first `n`. */
  predicate FirstLeast(t: Table, slot: nat, n: nat)
    requires n <= |t|
  {
    && slot < n
    && (forall j :: 0 <= j < n ==> t[slot].launchCount <= t[j].launchCount)
    && (forall j :: 0 <= j < slot ==> t[slot].launchCount < t[j].launchCount)
  }

  /** How many of the first `n` entries are blank. */
  ghost function BlankBefore(t: Table, n: nat): nat
    requires n <= |t|
  {
    if n == 0 then 0 else BlankBefore(t, n - 1) + if t[n - 1].launchCount == 0 then 1 else 0
  }

  ghost predicate SlotFor(t: Table, slot: nat) {
    && slot < |t|
    && (if HasBlank(t) then t[slot].launchCount == 0 else FirstLeast(t, slot, |t|))
  }

  /** Every entry of that name is launched, every other one stays. */
  ghost predicate Relaunch(t: Table, name: string, t': Table)
    requires ValidTable(t)
  {
    |t'| == |t| && forall i :: 0 <= i < |t| ==>
      if Same(t[i], name) then LaunchedTo(t[i], t'[i]) else t'[i] == t[i]
  }

  /** `AddHistoryRecord` takes `t` to `t'` and sends `evicted` to the file of old entries. */
  ghost predicate Next(t: Table, name: string, date: nat, t': Table, evicted: Option<Entry>)
    requires ValidTable(t)
  {
    if Known(t, name) then Relaunch(t, name, t') && evicted == None
    else exists slot :: SlotFor(t, slot) && Replaced(t, slot, name, date, t', evicted)
  }

  predicate Replaced(t: Table, slot: nat, name: string, date: nat, t': Table, evicted: Option<Entry>)
    requires slot < |t|
  {
    && t' == t[slot := Fresh(name, date, t[slot].padding)]
    && evicted == (if HasBlank(t) then None else Some(t[slot]))
  }

  /* ---- One call, field by field ---- */

  /** A name the table does not know takes one slot: a blank one if there is one, else the first least
      launched, whose old entry goes to the file. The record has the name and the date given, count 1,
      bit 0 and no other, shift amount 0; the padding stays what it was there. */
  lemma NewRecordFields(t: Table, name: string, date: nat, t': Table, evicted: Option<Entry>) returns (at: nat)
    requires ValidTable(t) && Next(t, name, date, t', evicted)
    requires forall i :: 0 <= i < |t| ==> !(t[i].name == name && (|name| <= 15 || t[i].launchCount == 0))
    ensures at < |t| == |t'| && forall i :: 0 <= i < |t| && i != at ==> t'[i] == t[i]
    ensures t'[at].name == name && t'[at].dateStamp == date && t'[at].launchCount == 1
    ensures |t'[at].bitmask| == 8 && forall x :: 0 <= x < 8 ==> (t'[at].bitmask[x] <==> x == 7)
    ensures t'[at].shiftAmount == 0 && t'[at].padding == t[at].padding
    ensures if exists i :: 0 <= i < |t| && t[i].launchCount == 0 then t[at].launchCount == 0 && evicted == None
            else
              && evicted == Some(t[at])
              && forall i :: 0 <= i < |t| ==>
                   if i < at then t[at].launchCount < t[i].launchCount else t[at].launchCount <= t[i].launchCount
  {
    at :| SlotFor(t, at) && Replaced(t, at, name, date, t', evicted);
  }

  /** The low six bits of the mask. */
  predicate AllSix(e: Entry)
    requires |e.bitmask| == 8
  {
    forall x :: 2 <= x < 8 ==> e.bitmask[x]
  }

  /** The entries of a known name are launched, whatever the table held, and the others stay. A launch
      keeps name, date and padding. An entry without all six bits counts up in its byte, not beyond 0x7F;
      where the count is then 14 or more, and not 14 more or less a multiple of ten, one bit that was
      clear is set, and the shift amount is its number. A full entry counts up to 0x40 and then falls to
      0x3F, with shift amount 7. In no other case do bits or shift amount change. */
  lemma LaunchFields(t: Table, name: string, date: nat, t': Table, evicted: Option<Entry>, i: nat)
    requires ValidTable(t) && Next(t, name, date, t', evicted) && i < |t|
    requires exists m :: 0 <= m < |t| && t[m].name == name && (|name| <= 15 || t[m].launchCount == 0)
    ensures |t'| == |t| && evicted == None
    ensures !(t[i].name == name && (|name| <= 15 || t[i].launchCount == 0)) ==> t'[i] == t[i]
    ensures t[i].name == name && (|name| <= 15 || t[i].launchCount == 0) ==> Launched(t[i], t'[i])
  {
    assert Known(t, name);
    if Same(t[i], name) { LaunchedByField(t[i], t'[i]); }
  }

  /** What a launch does to the fields of an entry. */
  predicate Launched(e: Entry, e': Entry)
    requires |e.bitmask| == 8
  {
    && e'.name == e.name && e'.dateStamp == e.dateStamp && e'.padding == e.padding && |e'.bitmask| == 8
    && if AllSix(e) then
         && e'.bitmask == e.bitmask
         && (e.launchCount < 0x40 ==> e'.launchCount == e.launchCount + 1 && e'.shiftAmount == e.shiftAmount)
         && (e.launchCount >= 0x40 ==> e'.launchCount == 0x3F && e'.shiftAmount == 7)
       else
         var count := (e.launchCount + 1) % 256;
         && e'.launchCount == (if count < 0x80 then count else 0x7F)
         && if e'.launchCount >= 14 && e'.launchCount % 10 != 4 then OneBitSet(e, e')
            else e'.bitmask == e.bitmask && e'.shiftAmount == e.shiftAmount
  }

  /** The bit whose number, from the low end, is the new shift amount; it was clear, and no other changes. */
  predicate OneBitSet(e: Entry, e': Entry)
    requires |e.bitmask| == |e'.bitmask| == 8
  {
    && e'.shiftAmount < 6 && !e.bitmask[7 - e'.shiftAmount] && e'.bitmask[7 - e'.shiftAmount]
    && forall x :: 0 <= x < 8 && x != 7 - e'.shiftAmount ==> e'.bitmask[x] == e.bitmask[x]
  }

  lemma LaunchedByField(e: Entry, e': Entry)
    requires ValidEntry(e) && LaunchedTo(e, e')
    ensures Launched(e, e')
  {
    var bit :| 0 <= bit < 6 && (NeedsBit(e) ==> !BitSet(e, bit)) && e' == Relaunched(e, bit);
    FullIsAllSix(e);
    if AllSix(e) { FullValue(e); }
    hide AllSix, Full, Value;
    TensFrom14(CountedUp(e));
  }

  lemma FullIsAllSix(e: Entry)
    requires |e.bitmask| == 8
    ensures Full(e) <==> AllSix(e)
  {
    assert Full(e) ==> forall i :: 0 <= i < 6 ==> e.bitmask[2..][i];
    assert forall x :: 2 <= x < 8 ==> e.bitmask[x] == e.bitmask[2..][x - 2];
  }

  lemma TensFrom14(count: nat)
    ensures count >= 14 ==> ((count - 14) % 10 != 0 <==> count % 10 != 4)
  {
  }

  /* ---- What every run keeps ---- */

  /** How many bits an entry has after `count` launches. */
  function BitsAt(count: nat): nat {
    if count <= 14 then 1 else if count >= 19 then 6 else count - 13
  }

  /** A used entry: a nonempty name with its terminator, count from 1 to 64, and as many bits as the count says. */
  predicate GoodEntry(e: Entry) {
    && ValidEntry(e) && 1 <= |e.name| <= 15
    && 1 <= e.launchCount <= 0x40
    && Ones(e.bitmask[2..]) == BitsAt(e.launchCount)
  }

  predicate GoodTable(t: Table) {
    && ValidTable(t)
    && (forall i :: 0 <= i < |t| ==> if t[i].launchCount == 0 then t[i].name == "" else GoodEntry(t[i]))
    && (forall i, j :: 0 <= i < j < |t| && t[i].launchCount != 0 && t[j].launchCount != 0 ==> t[i].name != t[j].name)
  }

  const BLANK := Entry("", 0, [false, false, false, false, false, false, false, false], 0, 0, 0)

  /** Every field of an entry is zero. */
  predicate AllZero(e: Entry) {
    && e.name == "" && e.launchCount == 0 && e.shiftAmount == 0 && e.padding == 0 && e.dateStamp == 0
    && |e.bitmask| == 8 && forall i :: 0 <= i < 8 ==> !e.bitmask[i]
  }

  /** The table that `memset` leaves. */
  function EmptyTable(): (t: Table)
    ensures |t| == MAX_HISTORY_ENTRIES && forall i :: 0 <= i < |t| ==> t[i] == BLANK
  {
    seq(MAX_HISTORY_ENTRIES, _ => BLANK)
  }

  lemma {:induction false} OnesBound(w: seq<bool>)
    ensures Ones(w) <= |w|
    ensures Ones(w) == |w| <==> forall i :: 0 <= i < |w| ==> w[i]
  {
    if w != [] {
      OnesBound(w[1..]);
      assert forall i :: 1 <= i < |w| ==> w[i] == w[1..][i - 1];
    }
  }

  lemma {:induction false} OnesSet(w: seq<bool>, i: nat)
    requires i < |w| && !w[i]
    ensures Ones(w[i := true]) == Ones(w) + 1
  {
    if i == 0 {
      assert w[i := true][1..] == w[1..];
    } else {
      OnesSet(w[1..], i - 1);
      assert w[i := true][1..] == w[1..][i - 1 := true];
    }
  }

  lemma FullIsSix(e: Entry)
    requires |e.bitmask| == 8
    ensures Full(e) <==> Ones(e.bitmask[2..]) == 6
  {
    OnesBound(e.bitmask[2..]);
    assert Full(e) <==> forall i :: 0 <= i < 6 ==> e.bitmask[2..][i];
  }

  lemma FullValue(e: Entry)
    requires |e.bitmask| == 8 && Full(e)
    ensures Value(e.bitmask[2..]) == 0x3F
  {
    var w := [true, true, true, true, true, true];
    assert w[..5][..4] == [true, true, true, true] && w[..5] == [true, true, true, true, true];
    assert [true, true, true, true][..3] == [true, true, true] && [true, true, true][..2] == [true, true];
    assert [true, true][..1] == [true] && [true][..0] == [];
  }

  /** A launch keeps an entry good; the clamp at 0x7F is never reached. */
  lemma LaunchKeepsGood(e: Entry, bit: nat)
    requires GoodEntry(e) && bit < 6 && (NeedsBit(e) ==> !BitSet(e, bit))
    ensures GoodEntry(Relaunched(e, bit)) && Relaunched(e, bit).name == e.name
    ensures !Full(e) ==> e.launchCount < 19 && CountedUp(e) == e.launchCount + 1
    ensures Relaunched(e, bit).launchCount == if e.launchCount < 0x40 then e.launchCount + 1 else 0x3F
  {
    hide BitsAt, Full, CountedUp, Ones;
    FullIsSix(e);
    BitsOfCount(e.launchCount);
    if Full(e) {
      FullValue(e);
    } else {
      CountOfUnfull(e);
      if NeedsBit(e) { OneMoreBit(e, bit); }
    }
  }

  lemma BitsOfCount(count: nat)
    ensures BitsAt(count) == 6 <==> count >= 19
    ensures 1 <= count < 19 ==> BitsAt(count + 1) == BitsAt(count) + if count >= 14 then 1 else 0
    ensures count >= 19 ==> BitsAt(count + 1) == 6 && BitsAt(0x3F) == 6
  {
  }

  lemma CountOfUnfull(e: Entry)
    requires |e.bitmask| == 8 && 1 <= e.launchCount < 19
    ensures CountedUp(e) == e.launchCount + 1
    ensures NeedsBit(e) <==> !Full(e) && e.launchCount >= 14
  {
    hide Full;
    var c := e.launchCount;
    assert c >= 14 ==> (c + 1 - 14) % 10 == c + 1 - 14;
  }

  lemma OneMoreBit(e: Entry, bit: nat)
    requires |e.bitmask| == 8 && bit < 6 && !BitSet(e, bit)
    ensures Ones(e.bitmask[7 - bit := true][2..]) == Ones(e.bitmask[2..]) + 1
  {
    OnesSet(e.bitmask[2..], 5 - bit);
    assert e.bitmask[7 - bit := true][2..] == e.bitmask[2..][5 - bit := true];
  }

  /** Whenever a bit is drawn, one is free. */
  lemma FreeBitExists(e: Entry)
    requires |e.bitmask| == 8 && !Full(e)
    ensures exists bit: nat :: bit < 6 && !BitSet(e, bit)
  {
    FullIsSix(e);
    OnesBound(e.bitmask[2..]);
    var i :| 0 <= i < 6 && !e.bitmask[2..][i];
    assert !BitSet(e, 5 - i);
  }

  /** One call on a good table: it stays good, the name is in it exactly once, at most one entry
      changes, and an entry is evicted only when no slot was blank, then the first least launched. */
  lemma NextKeepsGood(t: Table, name: string, date: nat, t': Table, evicted: Option<Entry>) returns (at: nat)
    requires GoodTable(t) && 1 <= |name| <= 15 && Next(t, name, date, t', evicted)
    ensures GoodTable(t')
    ensures at < |t'| && t'[at].name == name && t'[at].launchCount > 0
    ensures forall i :: 0 <= i < |t'| && i != at ==> t'[i].name != name && t'[i] == t[i]
    ensures evicted.Some? <==> !Known(t, name) && !HasBlank(t)
    ensures evicted.Some? ==> FirstLeast(t, at, |t|) && evicted == Some(t[at])
  {
    if Known(t, name) {
      at :| 0 <= at < |t| && Same(t[at], name);
      LaunchAt(t, name, t', at);
    } else {
      at :| SlotFor(t, at) && Replaced(t, at, name, date, t', evicted);
      FreshIsGood(name, date, t[at].padding);
      OneReplaced(t, at, t'[at]);
    }
  }

  /** A name that is in the table belongs to one entry only. */
  lemma LaunchAt(t: Table, name: string, t': Table, at: nat)
    requires GoodTable(t) && 1 <= |name| <= 15 && at < |t| && t[at].name == name && Relaunch(t, name, t')
    ensures GoodTable(t') && t'[at].name == name && t'[at].launchCount > 0
    ensures forall i :: 0 <= i < |t'| && i != at ==> t'[i].name != name && t'[i] == t[i]
  {
    hide LaunchedTo;
    GoodLaunch(t[at], t'[at]);
    forall i | 0 <= i < |t| && i != at
      ensures t[i].name != name
    {
    }
    assert t' == t[at := t'[at]];
    OneReplaced(t, at, t'[at]);
  }

  lemma GoodLaunch(e: Entry, e': Entry)
    requires GoodEntry(e) && LaunchedTo(e, e')
    ensures GoodEntry(e') && e'.name == e.name
    ensures e'.launchCount == if e.launchCount < 0x40 then e.launchCount + 1 else 0x3F
  {
    var bit :| 0 <= bit < 6 && (NeedsBit(e) ==> !BitSet(e, bit)) && e' == Relaunched(e, bit);
    LaunchKeepsGood(e, bit);
  }

  lemma OneReplaced(t: Table, at: nat, e: Entry)
    requires GoodTable(t) && at < |t| && GoodEntry(e)
    requires forall i :: 0 <= i < |t| && i != at ==> t[i].name != e.name
    ensures GoodTable(t[at := e])
  {
    hide BitsAt, Ones;
  }

  lemma FreshIsGood(name: string, date: nat, padding: nat)
    requires 1 <= |name| <= 15
    ensures GoodEntry(Fresh(name, date, padding))
  {
    var w := [false, false, false, false, false, true];
    assert Fresh(name, date, padding).bitmask[2..] == w;
    assert w[1..] == [false, false, false, false, true] && w[1..][1..] == [false, false, false, true];
    assert [false, false, false, true][1..] == [false, false, true];
    assert [false, false, true][1..] == [false, true] && [false, true][1..] == [true];
  }

  /** One step keeps a good table good exactly when the name is not empty and leaves room for its
      terminator. */
  lemma GoodExactlyWhen(t: Table, name: string, date: nat, t': Table, evicted: Option<Entry>)
    requires GoodTable(t) && Next(t, name, date, t', evicted)
    ensures GoodTable(t') <==> 1 <= |name| <= 15
  {
    if 1 <= |name| <= 15 {
      hide GoodTable, Next;
      var at := NextKeepsGood(t, name, date, t', evicted);
    } else if Known(t, name) {
      BlankLaunched(t, name, t');
    } else {
      var slot: nat :| SlotFor(t, slot) && Replaced(t, slot, name, date, t', evicted);
      assert t'[slot].launchCount == 1 && t'[slot].name == name;
    }
  }

  /** A name a good table should not hold can only be that of its blank entries, and it fills them. */
  lemma BlankLaunched(t: Table, name: string, t': Table)
    requires GoodTable(t) && !(1 <= |name| <= 15) && Known(t, name) && Relaunch(t, name, t')
    ensures !GoodTable(t')
  {
    var i :| 0 <= i < |t| && Same(t[i], name);
    LaunchNames(t[i], t'[i]);
  }

  lemma LaunchNames(e: Entry, e': Entry)
    requires |e.bitmask| == 8 && LaunchedTo(e, e')
    ensures e'.name == e.name
    ensures e.launchCount == 0 ==> e'.launchCount == 1
  {
    var bit :| 0 <= bit < 6 && e' == Relaunched(e, bit);
  }

  /** No blank slot holds a name without terminator. */
  predicate LongNamesUsed(t: Table) { forall i :: 0 <= i < |t| && |t[i].name| == 16 ==> t[i].launchCount != 0 }

  /** A name of 16 characters is never recognised, however often it is launched: every launch of it
      makes another record. */
  lemma LongNameUnknown(t: Table, name: string, date: nat, t': Table, evicted: Option<Entry>, long: string)
    requires ValidTable(t) && LongNamesUsed(t) && Next(t, name, date, t', evicted) && |long| == 16
    ensures LongNamesUsed(t') && !Known(t, long) && !Known(t', long)
  {
    if Known(t, name) {
      forall i | 0 <= i < |t'| && |t'[i].name| == 16
        ensures t'[i].launchCount != 0
      {
        if Same(t[i], name) { LaunchNames(t[i], t'[i]); }
      }
    }
  }

  /** A run: the empty table, then one table after each launch. */
  datatype Launch = Launch(name: string, date: nat)

  ghost predicate Run(ts: seq<Table>, launches: seq<Launch>) {
    && |ts| == |launches| + 1
    && ts[0] == EmptyTable()
    && (forall k :: 0 <= k < |launches| ==> StepOfRun(ts[k], launches[k], ts[k + 1]))
  }

  ghost predicate StepOfRun(t: Table, launch: Launch, t': Table) {
    && ValidTable(t) && |launch.name| <= 16
    && exists evicted :: Next(t, launch.name, launch.date, t', evicted)
  }

  predicate GoodName(name: string) { 1 <= |name| <= 15 }

  lemma {:induction false} EveryRunIsGood(ts: seq<Table>, launches: seq<Launch>, k: nat)
    requires Run(ts, launches) && k < |ts| && forall j :: 0 <= j < k ==> GoodName(launches[j].name)
    ensures GoodTable(ts[k])
  {
    hide StepOfRun;
    if k > 0 {
      EveryRunIsGood(ts, launches, k - 1);
      assert GoodName(launches[k - 1].name);
      StepIsGood(ts[k - 1], launches[k - 1], ts[k]);
    }
  }

  lemma StepIsGood(t: Table, launch: Launch, t': Table)
    requires StepOfRun(t, launch, t') && GoodTable(t)
    ensures GoodTable(t') <==> GoodName(launch.name)
  {
    hide GoodTable;
    var evicted :| Next(t, launch.name, launch.date, t', evicted);
    hide Next;
    GoodExactlyWhen(t, launch.name, launch.date, t', evicted);
  }

  /** Entry `i` of table `k` is the record launch `j` made: of that name, unknown then, and it has been
      there under that name, with the date it got and the padding it found, ever since. */
  predicate RecordedBy(ts: seq<Table>, launches: seq<Launch>, k: nat, i: nat, j: nat)
    requires k < |ts| == |launches| + 1 && j < k && AllTables(ts) && i < MAX_HISTORY_ENTRIES
  {
    !Known(ts[j], launches[j].name) && StaysRecord(ts, launches[j], ts[j][i].padding, i, j + 1, k)
  }

  predicate AllTables(ts: seq<Table>) { forall m :: 0 <= m < |ts| ==> |ts[m]| == MAX_HISTORY_ENTRIES }

  predicate StaysRecord(ts: seq<Table>, launch: Launch, padding: nat, i: nat, from: nat, to: nat)
    requires to < |ts| && AllTables(ts) && i < MAX_HISTORY_ENTRIES
  {
    forall m :: from <= m <= to ==> IsRecord(ts[m][i], launch, padding)
  }

  predicate IsRecord(e: Entry, launch: Launch, padding: nat) {
    e.launchCount != 0 && e.name == launch.name && e.dateStamp == launch.date && e.padding == padding
  }

  lemma RunTables(ts: seq<Table>, launches: seq<Launch>)
    requires Run(ts, launches)
    ensures AllTables(ts)
  {
    forall k | 0 <= k < |ts|
      ensures |ts[k]| == MAX_HISTORY_ENTRIES
    {
      if k > 0 { StepTables(ts[k - 1], launches[k - 1], ts[k]); }
    }
  }

  lemma StepTables(t: Table, launch: Launch, t': Table)
    requires StepOfRun(t, launch, t')
    ensures |t'| == MAX_HISTORY_ENTRIES
  {
    var evicted :| Next(t, launch.name, launch.date, t', evicted);
  }

  lemma RunStep(ts: seq<Table>, launches: seq<Launch>, k: nat)
    requires Run(ts, launches) && k < |launches| && forall n :: 0 <= n <= k ==> GoodName(launches[n].name)
    ensures GoodTable(ts[k]) && GoodName(launches[k].name) && StepOfRun(ts[k], launches[k], ts[k + 1])
  {
    EveryRunIsGood(ts, launches, k);
  }

  /** Every used entry of every table of a run carries the date of the launch that recorded it. */
  lemma {:induction false} DatesAreOfRecords(ts: seq<Table>, launches: seq<Launch>, k: nat, i: nat) returns (j: nat)
    requires Run(ts, launches) && k < |ts| && forall n :: 0 <= n < k ==> GoodName(launches[n].name)
    requires i < |ts[k]| && ts[k][i].launchCount != 0
    ensures j < k && i < MAX_HISTORY_ENTRIES && AllTables(ts) && RecordedBy(ts, launches, k, i, j)
  {
    RunTables(ts, launches);
    assert k > 0;
    RunStep(ts, launches, k - 1);
    hide GoodTable, GoodName, StepOfRun, Known;
    if StepRecords(ts[k - 1], launches[k - 1], ts[k], i) {
      j := k - 1;
    } else {
      StepKeepsRecord(ts[k - 1], launches[k - 1], ts[k], i);
      j := DatesAreOfRecords(ts, launches, k - 1, i);
      OneMoreTable(ts, launches, k, i, j);
    }
  }

  lemma OneMoreTable(ts: seq<Table>, launches: seq<Launch>, k: nat, i: nat, j: nat)
    requires 0 < k < |ts| == |launches| + 1 && j < k - 1 && AllTables(ts) && i < MAX_HISTORY_ENTRIES
    requires RecordedBy(ts, launches, k - 1, i, j) && ts[k][i].launchCount != 0
    requires ts[k][i].name == ts[k - 1][i].name
    requires ts[k][i].dateStamp == ts[k - 1][i].dateStamp && ts[k][i].padding == ts[k - 1][i].padding
    ensures RecordedBy(ts, launches, k, i, j)
  {
    hide Known;
    assert IsRecord(ts[k - 1][i], launches[j], ts[j][i].padding);
  }

  /** This step makes the record of entry `i`. */
  predicate StepRecords(t: Table, launch: Launch, t': Table, i: nat)
    requires i < |t| == |t'|
  {
    !Known(t, launch.name) && IsRecord(t'[i], launch, t[i].padding)
  }

  lemma StepKeepsRecord(t: Table, launch: Launch, t': Table, i: nat)
    requires StepOfRun(t, launch, t') && GoodTable(t) && GoodName(launch.name) && i < |t| == |t'|
    requires t'[i].launchCount != 0 && !StepRecords(t, launch, t', i)
    ensures t[i].launchCount != 0 && t'[i].name == t[i].name
    ensures t'[i].dateStamp == t[i].dateStamp && t'[i].padding == t[i].padding
  {
    hide Next;
    var evicted :| Next(t, launch.name, launch.date, t', evicted);
    if Known(t, launch.name) {
      LaunchFields(t, launch.name, launch.date, t', evicted, i);
      UsedIsNamed(t, i);
    } else {
      var at := NewRecordFields(t, launch.name, launch.date, t', evicted);
    }
  }

  lemma UsedIsNamed(t: Table, i: nat)
    requires GoodTable(t) && i < |t| && t[i].name != ""
    ensures t[i].launchCount != 0
  {
  }

  /** All tables of a run are good exactly when every name launched is. */
  lemma RunIsGoodExactlyWhen(ts: seq<Table>, launches: seq<Launch>)
    requires Run(ts, launches)
    ensures (forall k :: 0 <= k < |ts| ==> GoodTable(ts[k]))
            <==> forall j :: 0 <= j < |launches| ==> GoodName(launches[j].name)
  {
    hide GoodTable, GoodName, StepOfRun;
    if forall j :: 0 <= j < |launches| ==> GoodName(launches[j].name) {
      forall k | 0 <= k < |ts|
        ensures GoodTable(ts[k])
      {
        EveryRunIsGood(ts, launches, k);
      }
    } else {
      var j :| 0 <= j < |launches| && !GoodName(launches[j].name);
      if GoodTable(ts[j]) { StepIsGood(ts[j], launches[j], ts[j + 1]); }
    }
  }

  /** The states of one entry from its first launch on. */
  ghost predicate Career(es: seq<Entry>) {
    && es != [] && (exists name, date, padding :: 1 <= |name| <= 15 && es[0] == Fresh(name, date, padding))
    && (forall k :: 0 <= k < |es| - 1 ==> |es[k].bitmask| == 8 && LaunchedTo(es[k], es[k + 1]))
  }

  /** The count after `n` launches: exact up to 64, alternating between 63 and 64 from then. */
  function CountAfter(n: nat): nat { if n <= 64 then n else 64 - n % 2 }

  lemma {:induction false} CareerCounts(es: seq<Entry>, k: nat)
    requires Career(es) && k < |es|
    ensures GoodEntry(es[k]) && es[k].name == es[0].name
    ensures es[k].launchCount == CountAfter(k + 1)
  {
    hide GoodEntry, LaunchedTo, Career;
    if k == 0 {
      CareerStarts(es);
    } else {
      CareerCounts(es, k - 1);
      CareerStep(es, k - 1);
      NextCount(k);
    }
  }

  lemma NextCount(n: nat)
    ensures CountAfter(n + 1) == if CountAfter(n) < 0x40 then CountAfter(n) + 1 else 0x3F
  {
  }

  lemma CareerStep(es: seq<Entry>, k: nat)
    requires Career(es) && k + 1 < |es| && GoodEntry(es[k])
    ensures GoodEntry(es[k + 1]) && es[k + 1].name == es[k].name
    ensures es[k + 1].launchCount == if es[k].launchCount < 0x40 then es[k].launchCount + 1 else 0x3F
  {
    assert LaunchedTo(es[k], es[k + 1]);
    hide GoodEntry, LaunchedTo;
    GoodLaunch(es[k], es[k + 1]);
  }

  lemma CareerStarts(es: seq<Entry>)
    requires Career(es)
    ensures GoodEntry(es[0]) && es[0].launchCount == 1
  {
    var name, date, padding :| 1 <= |name| <= 15 && es[0] == Fresh(name, date, padding);
    FreshIsGood(name, date, padding);
  }

  /* ---- The function that runs ---- */

  /** Every remainder keeps turning up. */
  ghost predicate Fair(rand: nat -> nat) {
    forall n: nat, v: nat :: v < 6 ==> DrawnFrom(rand, n, v)
  }

  ghost predicate DrawnFrom(rand: nat -> nat, n: nat, v: nat) { exists k :: k >= n && Draws(rand, k, v) }

  predicate Draws(rand: nat -> nat, k: nat, v: nat) { rand(k) % 6 == v }

  class Recorder {
    const rand: nat -> nat      // rand(k) is what the k-th call of rand returns
    var draws: nat
    var entries: array<Entry>
    var oldFile: seq<Entry>     // what has been appended to history.old

    constructor (rand: nat -> nat)
      ensures entries[..] == EmptyTable() && ValidTable(entries[..]) && oldFile == []
      ensures entries.Length == 21 && forall i :: 0 <= i < entries.Length ==> AllZero(entries[i])
      ensures this.rand == rand && fresh(entries) && draws == 0
    {
      this.rand, draws, oldFile := rand, 0, [];
      entries := new Entry[MAX_HISTORY_ENTRIES](_ => BLANK);
    }

    /** The part of `AddHistoryRecord` between loading and saving the table. */
    method AddHistoryRecord(name: string, date: nat)
      requires ValidTable(entries[..]) && |name| <= 16 && Fair(rand)
      modifies this`draws, this`oldFile, entries
      ensures ValidTable(entries[..])
      ensures exists evicted :: Next(old(entries[..]), name, date, entries[..], evicted)
                                && oldFile == old(oldFile) + if evicted.Some? then [evicted.value] else []
      ensures old(GoodTable(entries[..])) ==> (GoodTable(entries[..]) <==> GoodName(name))
    {
      hide GoodTable, Relaunch, SlotFor, Known, FirstLeast, HasBlank;
      ghost var t := entries[..];
      ghost var evicted: Option<Entry> := None;
      var leastUsed, isNew := LaunchAll(name);
      if isNew {
        evicted := NewRecord(t, leastUsed, name, date);
      } else {
        assert Next(t, name, date, entries[..], None);
      }
      hide Next;
      assert Next(t, name, date, entries[..], evicted);
      if GoodTable(t) { GoodExactlyWhen(t, name, date, entries[..], evicted); }
    }

    /** A record for a name the table does not know. */
    method NewRecord(ghost t: Table, leastUsed: nat, name: string, date: nat) returns (ghost evicted: Option<Entry>)
      requires t == entries[..] && ValidTable(t) && |name| <= 16 && !Known(t, name)
      requires FirstLeast(t, leastUsed, MAX_HISTORY_ENTRIES)
      modifies this`draws, this`oldFile, entries
      ensures ValidTable(entries[..]) && Next(t, name, date, entries[..], evicted)
      ensures oldFile == old(oldFile) + if evicted.Some? then [evicted.value] else []
    {
      hide Known, FirstLeast, HasBlank;
      var slot, blanks := PickSlot(leastUsed);
      assert slot < |t|;
      hide SlotFor;
      evicted := if blanks > 0 then None else Some(t[slot]);
      if blanks == 0 {
        oldFile := oldFile + [entries[slot]];
      }
      entries[slot] := Fresh(name, date, entries[slot].padding);
      assert entries[..] == t[slot := Fresh(name, date, t[slot].padding)];
      assert Replaced(t, slot, name, date, entries[..], evicted);
    }

    /** The first loop: launch the entries of that name and find the least used entry. */
    method LaunchAll(name: string) returns (leastUsedRecord: nat, isNewRecord: bool)
      requires ValidTable(entries[..]) && Fair(rand)
      modifies this`draws, entries
      ensures ValidTable(entries[..])
      ensures isNewRecord <==> !Known(old(entries[..]), name)
      ensures isNewRecord ==> entries[..] == old(entries[..])
      ensures isNewRecord ==> FirstLeast(old(entries[..]), leastUsedRecord, MAX_HISTORY_ENTRIES)
      ensures !isNewRecord ==> Relaunch(old(entries[..]), name, entries[..])
    {
      hide LaunchedTo;
      ghost var t := entries[..];
      var leastCount, leastTimestamp := 0x7FFF_FFFF, 0x7FFF_FFFF;
      leastUsedRecord, isNewRecord := 0, true;
      var i := 0;
      while i < MAX_HISTORY_ENTRIES
        invariant 0 <= i <= MAX_HISTORY_ENTRIES == entries.Length
        invariant i > 0 ==> FirstLeast(t, leastUsedRecord, i) && leastCount == t[leastUsedRecord].launchCount
        invariant i == 0 ==> leastCount == 0x7FFF_FFFF
        invariant forall j :: i <= j < MAX_HISTORY_ENTRIES ==> entries[j] == t[j]
        invariant forall j :: 0 <= j < i ==>
                    if Same(t[j], name) then LaunchedTo(t[j], entries[j]) else entries[j] == t[j]
        invariant forall j :: 0 <= j < MAX_HISTORY_ENTRIES ==> ValidEntry(entries[j])
        invariant isNewRecord <==> forall j :: 0 <= j < i ==> !Same(t[j], name)
      {
        if entries[i].launchCount < leastCount {
          leastUsedRecord, leastCount := i, entries[i].launchCount;
        }
        if leastUsedRecord == i && entries[i].dateStamp < leastTimestamp {
          leastTimestamp, leastUsedRecord := entries[i].dateStamp, i;
        }
        if entries[i].name == name && (|name| <= 15 || entries[i].launchCount == 0) {
          isNewRecord := false;
          LaunchEntry(i);
        }
        i := i + 1;
      }
    }

    /** A launch of entry `i`, with the random loop that looks for a clear bit. */
    method LaunchEntry(i: nat)
      requires i < entries.Length && ValidEntry(entries[i]) && Fair(rand)
      modifies this`draws, entries
      ensures LaunchedTo(old(entries[i]), entries[i]) && ValidEntry(entries[i])
      ensures forall j :: 0 <= j < entries.Length && j != i ==> entries[j] == old(entries[j])
    {
      var e, value := entries[i], 0;
      if !Full(e) {
        var count := U8(e.launchCount + 1);
        if count >= 0x80 { count := 0x7F; }
        entries[i] := e.(launchCount := count);
        if count >= 14 && (count - 14) % 10 != 0 {
          value := DrawFreeBit(e);
          entries[i] := entries[i].(shiftAmount := value, bitmask := e.bitmask[7 - value := true]);
        }
      } else if e.launchCount < 0x40 {
        entries[i] := e.(launchCount := e.launchCount + 1);
      } else {
        FullValue(e);
        entries[i] := e.(launchCount := Value(e.bitmask[2..]), shiftAmount := 7);
      }
      assert entries[i] == Relaunched(e, value);
    }

    /** The `n`-th draw hits a bit that is set. */
    predicate DrawsSetBit(e: Entry, n: nat)
      requires |e.bitmask| == 8
    {
      e.bitmask[7 - rand(n) % 6]
    }

    /** `while((bitmask>>(value=rand()%6))&1){}` */
    method DrawFreeBit(e: Entry) returns (value: nat)
      requires |e.bitmask| == 8 && !Full(e) && Fair(rand)
      modifies this`draws
      ensures value < 6 && !BitSet(e, value)
      ensures old(draws) < draws && value == rand(draws - 1) % 6
      ensures forall n :: old(draws) <= n < draws - 1 ==> DrawsSetBit(e, n)
    {
      FreeBitExists(e);
      ghost var free: nat :| free < 6 && !BitSet(e, free);
      assert DrawnFrom(rand, draws, free);
      ghost var k :| k >= draws && Draws(rand, k, free);
      value := rand(draws) % 6;
      draws := draws + 1;
      while BitSet(e, value)
        invariant value < 6 && old(draws) < draws <= k + 1 && value == rand(draws - 1) % 6
        invariant forall n :: old(draws) <= n < draws - 1 ==> DrawsSetBit(e, n)
        decreases k + 1 - draws
      {
        assert draws - 1 != k;
        value := rand(draws) % 6;
        draws := draws + 1;
      }
    }

    /** The slot of a new record: a random blank one, or the least used entry. */
    method PickSlot(leastUsedRecord: nat) returns (slot: nat, numBlankSlots: nat)
      requires ValidTable(entries[..]) && FirstLeast(entries[..], leastUsedRecord, MAX_HISTORY_ENTRIES)
      modifies this`draws
      ensures SlotFor(entries[..], slot) && (numBlankSlots > 0 <==> HasBlank(entries[..]))
      ensures numBlankSlots == BlankBefore(entries[..], |entries[..]|)
      ensures if numBlankSlots > 0 then
                && draws == old(draws) + 1
                && BlankBefore(entries[..], slot) == rand(old(draws)) % numBlankSlots
              else slot == leastUsedRecord && draws == old(draws)
    {
      var blankSlotList: seq<nat>, i := [], 0;
      while i < MAX_HISTORY_ENTRIES
        invariant 0 <= i <= MAX_HISTORY_ENTRIES
        invariant forall j :: 0 <= j < |blankSlotList| ==>
                    && blankSlotList[j] < i && entries[..][blankSlotList[j]].launchCount == 0
                    && BlankBefore(entries[..], blankSlotList[j]) == j
        invariant |blankSlotList| == BlankBefore(entries[..], i)
        invariant forall j :: 0 <= j < i && entries[..][j].launchCount == 0 ==> |blankSlotList| > 0
      {
        if entries[i].launchCount == 0 { blankSlotList := blankSlotList + [i]; }
        i := i + 1;
      }
      numBlankSlots := |blankSlotList|;
      if numBlankSlots > 0 {
        slot := blankSlotList[rand(draws) % numBlankSlots];
        draws := draws + 1;
      } else {
        slot := leastUsedRecord;
      }
    }
  }
}
