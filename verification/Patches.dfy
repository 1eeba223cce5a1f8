/** The pattern scanner and the ELF patcher of the EE core, on memory as an array of 32-bit words;
    addresses are word indices. */
module Patches {
  import opened Common
  import opened Masks

  datatype Pattern = Pattern(src: seq<Word32>, mask: seq<Word32>)

  predicate ValidPattern(p: Pattern) { |p.src| == 4 && |p.mask| == 4 }

  /** Word `j` of the pattern accepts `w`. */
  predicate Accepts(p: Pattern, j: nat, w: Word32)
    requires ValidPattern(p) && j < 4
  {
    Accepted(p.src[j], p.mask[j], w)
  }

  /** Word `j` of a window at `x` is accepted. */
  predicate Fits(p: Pattern, mem: seq<Word32>, x: nat, j: nat)
    requires ValidPattern(p) && j < 4 && x + j < |mem|
  {
    Accepts(p, j, mem[x + j])
  }

  predicate Match(p: Pattern, mem: seq<Word32>, x: nat)
    requires ValidPattern(p) && x + 4 <= |mem|
  {
    Fits(p, mem, x, 0) && Fits(p, mem, x, 1) && Fits(p, mem, x, 2) && Fits(p, mem, x, 3)
  }

  /** A scan up to `end` looks three words past it. */
  predicate Scannable(mem: seq<Word32>, start: nat, end: nat) { end + 3 <= |mem| && start <= |mem| }

  /** The positions in start..end at which the pattern matches, ascending. */
  function Matches(p: Pattern, mem: seq<Word32>, start: nat, end: nat): (ms: seq<nat>)
    requires ValidPattern(p) && Scannable(mem, start, end)
    ensures forall i :: 0 <= i < |ms| ==> start <= ms[i] < end
    decreases end - start
  {
    if start >= end then []
    else if Match(p, mem, start) then [start] + Matches(p, mem, start + 1, end)
    else Matches(p, mem, start + 1, end)
  }

  /** `ms` has matches in start..end only, in ascending order, and none is missing. */
  predicate AllAscending(p: Pattern, mem: seq<Word32>, start: nat, end: nat, ms: seq<nat>)
    requires ValidPattern(p) && Scannable(mem, start, end)
  {
    && (forall i :: 0 <= i < |ms| ==> start <= ms[i] < end && Match(p, mem, ms[i]))
    && (forall i, j :: 0 <= i < j < |ms| ==> ms[i] < ms[j])
    && (forall x :: start <= x < end && Match(p, mem, x) ==> x in ms)
  }

  lemma {:induction false} MatchesAreAll(p: Pattern, mem: seq<Word32>, start: nat, end: nat)
    requires ValidPattern(p) && Scannable(mem, start, end)
    ensures AllAscending(p, mem, start, end, Matches(p, mem, start, end))
    decreases end - start
  {
    hide Match;
    if start < end {
      hide AllAscending;
      var rest := Matches(p, mem, start + 1, end);
      MatchesAreAll(p, mem, start + 1, end);
      if Match(p, mem, start) { OneInFront(p, mem, start, end, rest); } else { NoneInFront(p, mem, start, end, rest); }
    }
  }

  /** There is only one such list. */
  lemma {:induction false} OnlyList(p: Pattern, mem: seq<Word32>, start: nat, end: nat, a: seq<nat>, b: seq<nat>)
    requires ValidPattern(p) && Scannable(mem, start, end)
    requires AllAscending(p, mem, start, end, a) && AllAscending(p, mem, start, end, b)
    ensures a == b
    decreases |a|
  {
    hide Match, AllAscending;
    HeadIsLeast(p, mem, start, end, a);
    HeadIsLeast(p, mem, start, end, b);
    if a != [] {
      BehindHead(p, mem, start, end, a);
      BehindHead(p, mem, start, end, b);
      OnlyList(p, mem, a[0] + 1, end, a[1..], b[1..]);
      assert a == [a[0]] + a[1..] && b == [b[0]] + b[1..];
    }
  }

  lemma HeadIsLeast(p: Pattern, mem: seq<Word32>, start: nat, end: nat, ms: seq<nat>)
    requires ValidPattern(p) && Scannable(mem, start, end) && AllAscending(p, mem, start, end, ms)
    ensures ms == [] ==> forall x :: start <= x < end ==> !Match(p, mem, x)
    ensures ms != [] ==> start <= ms[0] < end && Match(p, mem, ms[0])
    ensures ms != [] ==> forall x :: start <= x < end && Match(p, mem, x) ==> ms[0] <= x
  {
    hide Match;
  }

  lemma BehindHead(p: Pattern, mem: seq<Word32>, start: nat, end: nat, ms: seq<nat>)
    requires ValidPattern(p) && Scannable(mem, start, end) && AllAscending(p, mem, start, end, ms) && ms != []
    ensures AllAscending(p, mem, ms[0] + 1, end, ms[1..])
  {
    hide Match;
    forall x | ms[0] + 1 <= x < end && Match(p, mem, x)
      ensures x in ms[1..]
    {
      assert x in ms;
    }
  }

  lemma OneInFront(p: Pattern, mem: seq<Word32>, start: nat, end: nat, rest: seq<nat>)
    requires ValidPattern(p) && Scannable(mem, start, end) && start < end
    requires AllAscending(p, mem, start + 1, end, rest) && Match(p, mem, start)
    ensures AllAscending(p, mem, start, end, [start] + rest)
  {
    hide Match;
    var ms := [start] + rest;
    assert forall i :: 0 <= i < |ms| ==> ms[i] == if i == 0 then start else rest[i - 1];
    forall x | start <= x < end && Match(p, mem, x)
      ensures x in ms
    {
      assert x == start || x in rest;
    }
  }

  lemma NoneInFront(p: Pattern, mem: seq<Word32>, start: nat, end: nat, rest: seq<nat>)
    requires ValidPattern(p) && Scannable(mem, start, end) && start < end
    requires AllAscending(p, mem, start + 1, end, rest) && !Match(p, mem, start)
    ensures AllAscending(p, mem, start, end, rest)
  {
    hide Match;
  }

  /** The first of them. */
  function First(p: Pattern, mem: seq<Word32>, start: nat, end: nat): (f: Option<nat>)
    requires ValidPattern(p) && Scannable(mem, start, end)
    ensures f.Some? ==> start <= f.value < end
    decreases end - start
  {
    if start >= end then None else if Match(p, mem, start) then Some(start) else First(p, mem, start + 1, end)
  }

  lemma {:induction false} FirstIsLeast(p: Pattern, mem: seq<Word32>, start: nat, end: nat)
    requires ValidPattern(p) && Scannable(mem, start, end)
    ensures var f := First(p, mem, start, end);
            && (f.Some? ==> Match(p, mem, f.value))
            && forall x :: start <= x < end && Match(p, mem, x) ==> f.Some? && f.value <= x
    decreases end - start
  {
    hide Match;
    if start < end {
      FirstIsLeast(p, mem, start + 1, end);
    }
  }

  /** The four words from `x` on, each under its mask, are those of the pattern. */
  lemma MatchMeans(p: Pattern, mem: seq<Word32>, x: nat)
    requires ValidPattern(p) && x + 4 <= |mem|
    ensures Match(p, mem, x) <==> forall j :: 0 <= j < 4 ==> And(mem[x + j], p.mask[j]) == p.src[j]
  {
    hide And;
    assert Match(p, mem, x) ==>
        And(mem[x + 0], p.mask[0]) == p.src[0] && And(mem[x + 1], p.mask[1]) == p.src[1]
        && And(mem[x + 2], p.mask[2]) == p.src[2] && And(mem[x + 3], p.mask[3]) == p.src[3];
  }

  /** `scan_pattern`: the first match from `start` on, None for its null result. */
  method ScanPattern(p: Pattern, mem: array<Word32>, start: nat, end: nat) returns (found: Option<nat>)
    requires ValidPattern(p) && Scannable(mem[..], start, end)
    ensures found == First(p, mem[..], start, end)
    ensures found.Some? ==> start <= found.value < end && Match(p, mem[..], found.value)
    ensures forall x :: start <= x < (if found.Some? then found.value else end) ==> !Match(p, mem[..], x)
  {
    hide Match;
    FirstIsLeast(p, mem[..], start, end);
    var x := start;
    while x < end
      invariant start <= x && (x <= end || x == start)
      invariant First(p, mem[..], start, end) == First(p, mem[..], x, end)
    {
      var hit := MatchAt(p, mem, x);
      if hit { return Some(x); }
      x := x + 1;
    }
    return None;
  }

  /** The test inside the scan. */
  method MatchAt(p: Pattern, mem: array<Word32>, x: nat) returns (hit: bool)
    requires ValidPattern(p) && x + 4 <= mem.Length
    ensures hit == Match(p, mem[..], x)
  {
    hide And;
    hit := && And(mem[x], p.mask[0]) == p.src[0]
           && And(mem[x + 1], p.mask[1]) == p.src[1]
           && And(mem[x + 2], p.mask[2]) == p.src[2]
           && And(mem[x + 3], p.mask[3]) == p.src[3];
  }

  /* ---- SEARCH_SCAN ---- */

  function Write(mem: seq<Word32>, x: nat, d: seq<Word32>): (r: seq<Word32>)
    requires |d| == 4 && x + 4 <= |mem|
    ensures |r| == |mem|
    ensures forall i :: 0 <= i < |r| ==> r[i] == if x <= i < x + 4 then d[i - x] else mem[i]
  {
    mem[..x] + d + mem[x + 4..]
  }

  /** Memory after patching from `x` on, one word at a time. */
  function Sweep(p: Pattern, d: seq<Word32>, mem: seq<Word32>, x: nat, end: nat): (r: seq<Word32>)
    requires ValidPattern(p) && |d| == 4 && Scannable(mem, x, end)
    ensures |r| == |mem|
    decreases end - x
  {
    if x >= end then mem
    else if Match(p, mem, x) then Sweep(p, d, Write(mem, x, d), x + 1, end)
    else Sweep(p, d, mem, x + 1, end)
  }

  /** The leftmost non-overlapping matches in the memory as it was. */
  function Leftmost(p: Pattern, mem: seq<Word32>, x: nat, end: nat): (sites: seq<nat>)
    requires ValidPattern(p) && end + 3 <= |mem|
    ensures forall i :: 0 <= i < |sites| ==> x <= sites[i] < end && Match(p, mem, sites[i])
    ensures forall i, j :: 0 <= i < j < |sites| ==> sites[i] + 4 <= sites[j]
    decreases end - x
  {
    if x >= end then []
    else if Match(p, mem, x) then [x] + Leftmost(p, mem, x + 4, end)
    else Leftmost(p, mem, x + 1, end)
  }

  /** The memory once the patch data lies at every one of these places. */
  function WriteAll(mem: seq<Word32>, d: seq<Word32>, sites: seq<nat>): (r: seq<Word32>)
    requires |d| == 4 && forall i :: 0 <= i < |sites| ==> sites[i] + 4 <= |mem|
    ensures |r| == |mem|
    decreases |sites|
  {
    if sites == [] then mem else WriteAll(Write(mem, sites[0], d), d, sites[1..])
  }

  /** What a full scan is for: `after` is `before` with the patch data at its leftmost non-overlapping
      matches. */
  predicate LeftmostPatched(p: Pattern, d: seq<Word32>, before: seq<Word32>, after: seq<Word32>, start: nat, end: nat)
    requires ValidPattern(p) && |d| == 4 && Scannable(before, start, end)
  {
    after == WriteAll(before, d, Leftmost(p, before, start, end))
  }

  /* ---- Patch data and pattern ---- */

  /** The pattern can match at all: it asks for no bit outside its mask. */
  predicate Satisfiable(p: Pattern)
    requires ValidPattern(p)
  {
    forall j :: 0 <= j < 4 ==> Accepts(p, j, p.src[j])
  }

  /** A window that begins `shift` words into a patched place may match: the patch words inside it are
      accepted there. */
  predicate Rematches(p: Pattern, d: seq<Word32>, shift: nat)
    requires ValidPattern(p) && |d| == 4
  {
    forall j :: 0 <= j < 4 - shift ==> Fits(p, d, shift, j)
  }

  /** Patching that window again changes nothing: the patch repeats itself, and the words behind it can
      only be patch words. */
  predicate Harmless(p: Pattern, d: seq<Word32>, shift: nat)
    requires ValidPattern(p) && |d| == 4
  {
    && (forall j :: 0 <= j < 4 - shift ==> d[j + shift] == d[j])
    && (forall j :: 0 <= j < 4 && 4 - shift <= j ==> p.mask[j] == ALL_ONES && p.src[j] == d[j])
  }

  /** No window that begins inside a patched place disturbs it. */
  predicate Settled(p: Pattern, d: seq<Word32>)
    requires ValidPattern(p) && |d| == 4
  {
    Satisfiable(p) ==> forall shift :: 1 <= shift < 4 ==> SettledAt(p, d, shift)
  }

  predicate SettledAt(p: Pattern, d: seq<Word32>, shift: nat)
    requires ValidPattern(p) && |d| == 4
  {
    !Rematches(p, d, shift) || Harmless(p, d, shift)
  }

  /** Only a pattern that can match ever does. */
  lemma MatchIsSatisfiable(p: Pattern, mem: seq<Word32>, x: nat)
    requires ValidPattern(p) && x + 4 <= |mem| && Match(p, mem, x)
    ensures Satisfiable(p)
  {
    hide Accepted;
    MatchFits(p, mem, x);
    forall j | 0 <= j < 4
      ensures Accepts(p, j, p.src[j])
    {
      assert Fits(p, mem, x, j);
      SourceAccepted(p.src[j], p.mask[j], mem[x + j]);
    }
  }

  lemma MatchFits(p: Pattern, mem: seq<Word32>, x: nat)
    requires ValidPattern(p) && x + 4 <= |mem|
    ensures Match(p, mem, x) <==> forall j :: 0 <= j < 4 ==> Fits(p, mem, x, j)
  {
    hide Fits;
  }

  /** The patch data lies at `x`. */
  predicate PatchedAt(d: seq<Word32>, mem: seq<Word32>, x: nat)
    requires |d| == 4 && x + 4 <= |mem|
  {
    forall i :: 0 <= i < 4 ==> mem[x + i] == d[i]
  }

  /** A window that begins inside a patched place and matches is a rematch. */
  lemma MatchInside(p: Pattern, d: seq<Word32>, mem: seq<Word32>, x: nat, shift: nat)
    requires ValidPattern(p) && |d| == 4 && shift < 4 && x + shift + 4 <= |mem|
    requires PatchedAt(d, mem, x) && Match(p, mem, x + shift)
    ensures Rematches(p, d, shift)
  {
    hide Accepts, Match;
    MatchFits(p, mem, x + shift);
    forall j | 0 <= j < 4 - shift
      ensures Fits(p, d, shift, j)
    {
      assert Fits(p, mem, x + shift, j) && mem[x + (shift + j)] == d[shift + j];
    }
  }

  /* ---- When the sweep patches the leftmost matches ---- */

  lemma SameWindow(p: Pattern, a: seq<Word32>, b: seq<Word32>, x: nat)
    requires ValidPattern(p) && |a| == |b| && x + 4 <= |a|
    requires forall i :: x <= i < x + 4 ==> a[i] == b[i]
    ensures Match(p, a, x) == Match(p, b, x)
  {
    hide Accepts;
  }

  /** Memory that agrees from `x` on has the same leftmost matches there. */
  lemma {:induction false} LeftmostLocal(p: Pattern, a: seq<Word32>, b: seq<Word32>, x: nat, end: nat)
    requires ValidPattern(p) && |a| == |b| && end + 3 <= |a|
    requires forall i :: x <= i < |a| ==> a[i] == b[i]
    ensures Leftmost(p, a, x, end) == Leftmost(p, b, x, end)
    decreases end - x
  {
    hide Match;
    if x < end {
      SameWindow(p, a, b, x);
      LeftmostLocal(p, a, b, x + 1, end);
      LeftmostLocal(p, a, b, x + 4, end);
    }
  }

  lemma HarmlessWord(p: Pattern, d: seq<Word32>, mem: seq<Word32>, x: nat, shift: nat, j: nat)
    requires ValidPattern(p) && |d| == 4 && shift < 4 && x + shift + 4 <= |mem| && j < 4
    requires PatchedAt(d, mem, x) && Match(p, mem, x + shift) && Harmless(p, d, shift)
    ensures mem[x + shift + j] == d[j]
  {
    hide Match, Accepted;
    if j < 4 - shift {
      assert d[j + shift] == d[j] && mem[x + (j + shift)] == d[j + shift];
    } else {
      MatchFits(p, mem, x + shift);
      assert Fits(p, mem, x + shift, j);
      FullMask(p.src[j], mem[x + shift + j]);
    }
  }

  lemma HarmlessWrite(p: Pattern, d: seq<Word32>, mem: seq<Word32>, x: nat, shift: nat)
    requires ValidPattern(p) && |d| == 4 && shift < 4 && x + shift + 4 <= |mem|
    requires PatchedAt(d, mem, x) && Match(p, mem, x + shift) && Harmless(p, d, shift)
    ensures Write(mem, x + shift, d) == mem
  {
    hide Match, Harmless, PatchedAt;
    forall j | 0 <= j < 4
      ensures mem[x + shift + j] == d[j]
    {
      HarmlessWord(p, d, mem, x, shift, j);
    }
  }

  lemma StepOver(p: Pattern, d: seq<Word32>, mem: seq<Word32>, x: nat, shift: nat, end: nat)
    requires ValidPattern(p) && |d| == 4 && shift < 4 && x + 4 <= |mem| && end + 3 <= |mem|
    requires PatchedAt(d, mem, x) && SettledAt(p, d, shift) && x + shift <= |mem|
    ensures x + shift + 1 <= |mem| && Sweep(p, d, mem, x + shift, end) == Sweep(p, d, mem, x + shift + 1, end)
  {
    if x + shift < end && Match(p, mem, x + shift) {
      MatchInside(p, d, mem, x, shift);
      HarmlessWrite(p, d, mem, x, shift);
    }
    hide Match, Rematches, Harmless, PatchedAt;
  }

  lemma SettledEverywhere(p: Pattern, d: seq<Word32>)
    requires ValidPattern(p) && |d| == 4 && Satisfiable(p) && Settled(p, d)
    ensures SettledAt(p, d, 1) && SettledAt(p, d, 2) && SettledAt(p, d, 3)
  {
    hide Satisfiable, SettledAt;
  }

  /** After a patched place, the sweep passes over the three windows that begin inside it. */
  lemma SkipPatched(p: Pattern, d: seq<Word32>, mem: seq<Word32>, x: nat, end: nat)
    requires ValidPattern(p) && |d| == 4 && x < end && end + 3 <= |mem|
    requires Satisfiable(p) && Settled(p, d) && PatchedAt(d, mem, x)
    ensures Sweep(p, d, mem, x + 1, end) == Sweep(p, d, mem, x + 4, end)
  {
    hide Sweep, SettledAt, PatchedAt, Satisfiable, Settled;
    SettledEverywhere(p, d);
    StepOver(p, d, mem, x, 1, end);
    StepOver(p, d, mem, x, 2, end);
    StepOver(p, d, mem, x, 3, end);
  }

  lemma {:induction false} SettledSweep(p: Pattern, d: seq<Word32>, mem: seq<Word32>, x: nat, end: nat)
    requires ValidPattern(p) && |d| == 4 && Scannable(mem, x, end) && Settled(p, d)
    ensures LeftmostPatched(p, d, mem, Sweep(p, d, mem, x, end), x, end)
    decreases end - x
  {
    hide Match, Settled, Satisfiable, Sweep, Leftmost, WriteAll;
    if x < end {
      SweepStep(p, d, mem, x, end);
      if Match(p, mem, x) {
        var mem' := Write(mem, x, d);
        MatchIsSatisfiable(p, mem, x);
        SkipPatched(p, d, mem', x, end);
        LeftmostLocal(p, mem, mem', x + 4, end);
        SettledSweep(p, d, mem', x + 4, end);
      } else {
        SettledSweep(p, d, mem, x + 1, end);
      }
    } else {
      SweepEnds(p, d, mem, x, end);
    }
  }

  lemma SweepStep(p: Pattern, d: seq<Word32>, mem: seq<Word32>, x: nat, end: nat)
    requires ValidPattern(p) && |d| == 4 && Scannable(mem, x, end) && x < end
    ensures Match(p, mem, x) ==>
              && Sweep(p, d, mem, x, end) == Sweep(p, d, Write(mem, x, d), x + 1, end)
              && WriteAll(mem, d, Leftmost(p, mem, x, end))
                 == WriteAll(Write(mem, x, d), d, Leftmost(p, mem, x + 4, end))
    ensures !Match(p, mem, x) ==>
              && Sweep(p, d, mem, x, end) == Sweep(p, d, mem, x + 1, end)
              && Leftmost(p, mem, x, end) == Leftmost(p, mem, x + 1, end)
  {
    hide Match, Write;
    var rest := Leftmost(p, mem, x + 4, end);
    assert ([x] + rest)[1..] == rest;
  }

  lemma SweepEnds(p: Pattern, d: seq<Word32>, mem: seq<Word32>, x: nat, end: nat)
    requires ValidPattern(p) && |d| == 4 && Scannable(mem, x, end) && end <= x
    ensures Sweep(p, d, mem, x, end) == mem == WriteAll(mem, d, Leftmost(p, mem, x, end))
  {
  }

  /** Words the pattern accepts, from position `from` on, among which a write of the patch shows. */
  ghost predicate ShowingTail(p: Pattern, d: seq<Word32>, shift: nat, tail: seq<Word32>)
    requires ValidPattern(p) && |d| == 4 && shift < 4 && |tail| == shift
  {
    && (forall i :: 0 <= i < shift ==> Accepts(p, 4 - shift + i, tail[i]))
    && (d[shift..] + tail != d)
  }

  lemma HarmShows(p: Pattern, d: seq<Word32>, shift: nat) returns (tail: seq<Word32>)
    requires ValidPattern(p) && |d| == 4 && 1 <= shift < 4 && Satisfiable(p) && !Harmless(p, d, shift)
    ensures |tail| == shift && ShowingTail(p, d, shift, tail)
  {
    hide Accepted;
    tail := p.src[4 - shift..];
    if j :| 0 <= j < 4 - shift && d[j + shift] != d[j] {
      assert (d[shift..] + tail)[j] == d[j + shift];
    } else {
      var j :| 0 <= j < 4 && 4 - shift <= j && !(p.mask[j] == ALL_ONES && p.src[j] == d[j]);
      var w := p.src[j];
      if w == d[j] { w := OtherWord(p.src[j], p.mask[j]); }
      assert Accepts(p, j, w);
      tail := tail[j - (4 - shift) := w];
      assert (d[shift..] + tail)[j] == w;
    }
  }

  /** The first shift at which a patched place is not settled disturbs the patch of some memory. */
  lemma RematchSpoils(p: Pattern, d: seq<Word32>) returns (mem: seq<Word32>, end: nat)
    requires ValidPattern(p) && |d| == 4 && !Settled(p, d)
    ensures Scannable(mem, 0, end) && !LeftmostPatched(p, d, mem, Sweep(p, d, mem, 0, end), 0, end)
  {
    var shift := FirstUnsettled(p, d);
    var tail := HarmShows(p, d, shift);
    // the pattern, then the words that complete the match after the patch
    mem := p.src + tail;
    end := shift + 1;
    SpoiltMemory(p, d, mem, shift, tail);
  }

  lemma FirstUnsettled(p: Pattern, d: seq<Word32>) returns (shift: nat)
    requires ValidPattern(p) && |d| == 4 && !Settled(p, d)
    ensures Satisfiable(p) && 1 <= shift < 4 && Rematches(p, d, shift) && !Harmless(p, d, shift)
    ensures forall s :: 1 <= s < shift ==> SettledAt(p, d, s)
  {
    hide Rematches, Harmless, Satisfiable;
    shift := if !SettledAt(p, d, 1) then 1 else if !SettledAt(p, d, 2) then 2 else 3;
    assert !SettledAt(p, d, shift);
  }

  lemma SpoiltMemory(p: Pattern, d: seq<Word32>, mem: seq<Word32>, shift: nat, tail: seq<Word32>)
    requires ValidPattern(p) && |d| == 4 && Satisfiable(p) && 1 <= shift < 4
    requires Rematches(p, d, shift) && forall s :: 1 <= s < shift ==> SettledAt(p, d, s)
    requires |tail| == shift && ShowingTail(p, d, shift, tail) && mem == p.src + tail
    ensures !LeftmostPatched(p, d, mem, Sweep(p, d, mem, 0, shift + 1), 0, shift + 1)
  {
    hide Match, Rematches, Satisfiable, SettledAt, Sweep, Write, WriteAll, Leftmost;
    var patched := Write(mem, 0, d);
    assert patched == d + tail;
    SourceMatches(p, mem, 0);
    OnlyFirst(p, d, mem, shift + 1);
    TailMatches(p, d, patched, shift, tail);
    SweepUpTo(p, d, patched, shift);
    SecondWrite(d, shift, tail);
  }

  lemma SecondWrite(d: seq<Word32>, shift: nat, tail: seq<Word32>)
    requires |d| == 4 && shift < 4 && |tail| == shift && d[shift..] + tail != d
    ensures Write(d + tail, shift, d) != d + tail
  {
    assert Write(d + tail, shift, d)[shift..] == d;
    assert (d + tail)[shift..] == d[shift..] + tail;
  }

  /** Patch words that rematch, and words the pattern accepts behind them. */
  lemma TailMatches(p: Pattern, d: seq<Word32>, patched: seq<Word32>, shift: nat, tail: seq<Word32>)
    requires ValidPattern(p) && |d| == 4 && shift < 4 && Rematches(p, d, shift)
    requires |tail| == shift && patched == d + tail
    requires forall i :: 0 <= i < shift ==> Accepts(p, 4 - shift + i, tail[i])
    ensures Match(p, patched, shift)
  {
    hide Match, Accepts;
    MatchFits(p, patched, shift);
    forall j | 0 <= j < 4
      ensures Fits(p, patched, shift, j)
    {
      if j < 4 - shift {
        assert Fits(p, d, shift, j) && patched[shift + j] == d[shift + j];
      } else {
        var i := j - (4 - shift);
        assert Accepts(p, 4 - shift + i, tail[i]) && patched[shift + j] == tail[i];
      }
    }
  }

  lemma SourceMatches(p: Pattern, mem: seq<Word32>, x: nat)
    requires ValidPattern(p) && Satisfiable(p) && x + 4 <= |mem| && mem[x..x + 4] == p.src
    ensures Match(p, mem, x)
  {
    hide Accepts;
    MatchFits(p, mem, x);
    forall j | 0 <= j < 4
      ensures Fits(p, mem, x, j)
    {
      assert mem[x + j] == p.src[j];
    }
  }

  lemma OnlyFirst(p: Pattern, d: seq<Word32>, mem: seq<Word32>, end: nat)
    requires ValidPattern(p) && |d| == 4 && 1 <= end <= 4 && end + 3 <= |mem| && Match(p, mem, 0)
    ensures WriteAll(mem, d, Leftmost(p, mem, 0, end)) == Write(mem, 0, d)
    ensures Sweep(p, d, mem, 0, end) == Sweep(p, d, Write(mem, 0, d), 1, end)
  {
    hide Match;
    assert Leftmost(p, mem, 4, end) == [];
    assert Leftmost(p, mem, 0, end) == [0];
    assert WriteAll(Write(mem, 0, d), d, []) == Write(mem, 0, d);
  }

  lemma SweepUpTo(p: Pattern, d: seq<Word32>, patched: seq<Word32>, shift: nat)
    requires ValidPattern(p) && |d| == 4 && 1 <= shift < 4 && |patched| == shift + 4
    requires PatchedAt(d, patched, 0) && Match(p, patched, shift)
    requires forall s :: 1 <= s < shift ==> SettledAt(p, d, s)
    ensures Sweep(p, d, patched, 1, shift + 1) == Write(patched, shift, d)
  {
    hide Match, SettledAt, PatchedAt;
    if shift > 1 { StepOver(p, d, patched, 0, 1, shift + 1); }
    if shift > 2 { StepOver(p, d, patched, 0, 2, shift + 1); }
    assert Sweep(p, d, patched, shift, shift + 1) == Write(patched, shift, d);
    hide Sweep;
  }

  /** A full scan leaves every memory patched at its leftmost non-overlapping matches exactly when the
      pattern cannot match at all, or no window that begins inside a patched place can be matched and
      changed by a second patch. */
  lemma PatchesLeftmostExactlyWhen(p: Pattern, d: seq<Word32>)
    requires ValidPattern(p) && |d| == 4
    ensures (forall mem: seq<Word32>, start, end :: Scannable(mem, start, end) ==>
               LeftmostPatched(p, d, mem, Sweep(p, d, mem, start, end), start, end))
            <==> Settled(p, d)
  {
    hide LeftmostPatched, Settled;
    if Settled(p, d) {
      forall mem: seq<Word32>, start: nat, end: nat | Scannable(mem, start, end)
        ensures LeftmostPatched(p, d, mem, Sweep(p, d, mem, start, end), start, end)
      {
        SettledSweep(p, d, mem, start, end);
      }
    } else {
      var mem, end := RematchSpoils(p, d);
    }
  }

  /* ---- What a clean patch leaves behind ---- */

  predicate Spaced(sites: seq<nat>, n: nat) {
    && (forall i :: 0 <= i < |sites| ==> sites[i] + 4 <= n)
    && (forall i, j :: 0 <= i < j < |sites| ==> sites[i] + 4 <= sites[j])
  }

  /** Every site holds the patch data, and every word outside the sites is as it was. */
  lemma {:induction false} WrittenWords(mem: seq<Word32>, d: seq<Word32>, sites: seq<nat>, y: nat)
    requires |d| == 4 && Spaced(sites, |mem|) && y < |mem|
    ensures var r := WriteAll(mem, d, sites);
            && (forall k :: 0 <= k < |sites| && sites[k] <= y < sites[k] + 4 ==> r[y] == d[y - sites[k]])
            && ((forall k :: 0 <= k < |sites| ==> !(sites[k] <= y < sites[k] + 4)) ==> r[y] == mem[y])
    decreases |sites|
  {
    if sites != [] {
      var mem', rest := Write(mem, sites[0], d), sites[1..];
      WrittenWords(mem', d, rest, y);
      if sites[0] <= y < sites[0] + 4 {
        assert forall k :: 0 <= k < |rest| ==> rest[k] == sites[k + 1];
      } else {
        assert forall k :: 0 <= k < |rest| ==> rest[k] == sites[k + 1];
      }
    }
  }

  /** No original match in the range is missed: it lies at a site or within the four words of one. */
  lemma {:induction false} LeftmostCovers(p: Pattern, mem: seq<Word32>, x: nat, end: nat, y: nat) returns (k: nat)
    requires ValidPattern(p) && end + 3 <= |mem| && x <= y < end && Match(p, mem, y)
    ensures var sites := Leftmost(p, mem, x, end); k < |sites| && sites[k] <= y < sites[k] + 4
    decreases end - x
  {
    hide Match;
    if Match(p, mem, x) {
      if y < x + 4 {
        k := 0;
      } else {
        k := LeftmostCovers(p, mem, x + 4, end, y);
        k := k + 1;
      }
    } else {
      k := LeftmostCovers(p, mem, x + 1, end, y);
    }
  }

  /** Word `i` of the patch is accepted in a window that begins `shift` words before it. */
  predicate FitsBehind(p: Pattern, d: seq<Word32>, shift: nat, i: nat)
    requires ValidPattern(p) && |d| == 4 && i + shift < 4
  {
    Accepts(p, i + shift, d[i])
  }

  /** A window that begins `shift` words before a patched place may match. */
  predicate RematchesBehind(p: Pattern, d: seq<Word32>, shift: nat)
    requires ValidPattern(p) && |d| == 4
  {
    forall i :: 0 <= i < 4 - shift ==> FitsBehind(p, d, shift, i)
  }

  /** Words the pattern accepts at one place it also accepts `shift` places on, so that a window that
      begins `shift` words before a match has matched already if its first words fit. */
  predicate MatchedBefore(p: Pattern, shift: nat)
    requires ValidPattern(p)
  {
    forall i :: 0 <= i < 4 - shift ==> PassesOn(p, shift, i)
  }

  predicate PassesOn(p: Pattern, shift: nat, i: nat)
    requires ValidPattern(p) && i + shift < 4
  {
    Implies(p.src[i], p.mask[i], p.src[i + shift], p.mask[i + shift])
  }

  /** No window that overlaps a patched place matches afterwards. */
  predicate Clean(p: Pattern, d: seq<Word32>)
    requires ValidPattern(p) && |d| == 4
  {
    Satisfiable(p) ==>
      && (forall shift :: 0 <= shift < 4 ==> !Rematches(p, d, shift))
      && (forall shift :: 1 <= shift < 4 ==> !RematchesBehind(p, d, shift) || MatchedBefore(p, shift))
  }

  /** What a clean full scan is: the leftmost matches patched, and no match left in the range. */
  predicate CleanScan(p: Pattern, d: seq<Word32>, mem: seq<Word32>, start: nat, end: nat)
    requires ValidPattern(p) && |d| == 4 && Scannable(mem, start, end)
  {
    var after := Sweep(p, d, mem, start, end);
    && LeftmostPatched(p, d, mem, after, start, end)
    && forall x :: start <= x < end ==> !Match(p, after, x)
  }

  lemma CleanIsSettled(p: Pattern, d: seq<Word32>)
    requires ValidPattern(p) && |d| == 4 && Clean(p, d)
    ensures Settled(p, d)
  {
    hide Rematches, RematchesBehind, MatchedBefore, Harmless, Satisfiable;
  }

  /** A site of the list, as the memory before and after the patch see it. */
  predicate SiteIn(p: Pattern, d: seq<Word32>, before: seq<Word32>, after: seq<Word32>, site: nat)
    requires ValidPattern(p) && |d| == 4
  {
    |before| == |after| && site + 4 <= |after| && Match(p, before, site) && PatchedAt(d, after, site)
  }

  /** A window that reaches into a patched place from words as they were. */
  lemma BehindFails(p: Pattern, d: seq<Word32>, before: seq<Word32>, after: seq<Word32>, site: nat, shift: nat)
    requires ValidPattern(p) && |d| == 4 && Clean(p, d) && 1 <= shift < 4 && shift <= site
    requires SiteIn(p, d, before, after, site)
    requires forall y :: site - shift <= y < site ==> after[y] == before[y]
    requires Match(p, after, site - shift)
    ensures Match(p, before, site - shift)
  {
    hide Accepted, Clean, Match;
    var x := site - shift;
    BehindIsRematch(p, d, after, site, shift);
    MatchIsSatisfiable(p, before, site);
    CleanBehind(p, d, shift);
    MatchFits(p, before, x);
    MatchFits(p, before, site);
    MatchFits(p, after, x);
    forall j | 0 <= j < 4
      ensures Fits(p, before, x, j)
    {
      if j < shift {
        assert Fits(p, after, x, j);
      } else {
        var i := j - shift;
        assert Fits(p, before, site, i) && PassesOn(p, shift, i);
        ImpliesAccepted(p.src[i], p.mask[i], p.src[j], p.mask[j], before[site + i]);
      }
    }
  }

  lemma CleanBehind(p: Pattern, d: seq<Word32>, shift: nat)
    requires ValidPattern(p) && |d| == 4 && Clean(p, d) && Satisfiable(p) && 1 <= shift < 4
    requires RematchesBehind(p, d, shift)
    ensures MatchedBefore(p, shift)
  {
    hide RematchesBehind, MatchedBefore, Rematches, Satisfiable;
  }

  lemma CleanAhead(p: Pattern, d: seq<Word32>, shift: nat)
    requires ValidPattern(p) && |d| == 4 && Clean(p, d) && Satisfiable(p) && shift < 4
    ensures !Rematches(p, d, shift)
  {
    hide RematchesBehind, MatchedBefore, Rematches, Satisfiable;
  }

  lemma BehindIsRematch(p: Pattern, d: seq<Word32>, mem: seq<Word32>, site: nat, shift: nat)
    requires ValidPattern(p) && |d| == 4 && 1 <= shift < 4 && shift <= site && site + 4 <= |mem|
    requires PatchedAt(d, mem, site) && Match(p, mem, site - shift)
    ensures RematchesBehind(p, d, shift)
  {
    hide Accepts;
    MatchFits(p, mem, site - shift);
    forall i | 0 <= i < 4 - shift
      ensures FitsBehind(p, d, shift, i)
    {
      assert Fits(p, mem, site - shift, i + shift) && mem[site + i] == d[i];
    }
  }

  /** After a full scan with a clean patch, nothing in the range matches any more. */
  lemma NoMatchRemains(p: Pattern, d: seq<Word32>, mem: seq<Word32>, start: nat, end: nat, x: nat)
    requires ValidPattern(p) && |d| == 4 && Scannable(mem, start, end) && Clean(p, d) && start <= x < end
    ensures !Match(p, Sweep(p, d, mem, start, end), x)
  {
    CleanIsSettled(p, d);
    SettledSweep(p, d, mem, start, end);
    NothingLeft(p, d, mem, start, end, x);
    hide Match, Clean, Settled, Sweep;
  }

  lemma NothingLeft(p: Pattern, d: seq<Word32>, mem: seq<Word32>, start: nat, end: nat, x: nat)
    requires ValidPattern(p) && |d| == 4 && Scannable(mem, start, end) && Clean(p, d) && start <= x < end
    ensures !Match(p, WriteAll(mem, d, Leftmost(p, mem, start, end)), x)
  {
    hide Match, Clean, Satisfiable, Leftmost, WriteAll;
    var sites := Leftmost(p, mem, start, end);
    if k: nat :| k < |sites| && sites[k] <= x < sites[k] + 4 {
      NoneInside(p, d, mem, sites, k, x);
    } else {
      if Match(p, WriteAll(mem, d, sites), x) {
        MatchedAlready(p, d, mem, sites, x);
        var k := LeftmostCovers(p, mem, start, end, x);
      }
    }
  }

  lemma NoneInside(p: Pattern, d: seq<Word32>, mem: seq<Word32>, sites: seq<nat>, k: nat, x: nat)
    requires ValidPattern(p) && |d| == 4 && Clean(p, d) && Spaced(sites, |mem|) && x + 4 <= |mem|
    requires k < |sites| && Match(p, mem, sites[k]) && sites[k] <= x < sites[k] + 4
    ensures !Match(p, WriteAll(mem, d, sites), x)
  {
    hide Match, Clean, Satisfiable, WriteAll, PatchedAt;
    var r := WriteAll(mem, d, sites);
    if Match(p, r, x) {
      MatchIsSatisfiable(p, r, x);
      SitePatched(p, d, mem, sites, k);
      CleanAhead(p, d, x - sites[k]);
      MatchInside(p, d, r, sites[k], x - sites[k]);
    }
  }

  /** A window that begins at an untouched word matched before. */
  lemma MatchedAlready(p: Pattern, d: seq<Word32>, mem: seq<Word32>, sites: seq<nat>, x: nat)
    requires ValidPattern(p) && |d| == 4 && Clean(p, d) && Spaced(sites, |mem|) && x + 4 <= |mem|
    requires forall k :: 0 <= k < |sites| ==> Match(p, mem, sites[k]) && !(sites[k] <= x < sites[k] + 4)
    requires Match(p, WriteAll(mem, d, sites), x)
    ensures Match(p, mem, x)
  {
    hide Match, Clean, WriteAll, PatchedAt;
    var r := WriteAll(mem, d, sites);
    OutsideSame(mem, d, sites, x);
    if k :| 0 <= k < |sites| && x < sites[k] < x + 4 {
      SitePatched(p, d, mem, sites, k);
      FreeBefore(mem, d, sites, k, x);
      BehindFails(p, d, mem, r, sites[k], sites[k] - x);
    } else {
      forall y | x <= y < x + 4
        ensures r[y] == mem[y]
      {
        OutsideSame(mem, d, sites, y);
      }
      SameWindow(p, mem, r, x);
    }
  }

  lemma OutsideSame(mem: seq<Word32>, d: seq<Word32>, sites: seq<nat>, y: nat)
    requires |d| == 4 && Spaced(sites, |mem|) && y < |mem|
    requires forall k :: 0 <= k < |sites| ==> !(sites[k] <= y < sites[k] + 4)
    ensures WriteAll(mem, d, sites)[y] == mem[y]
  {
    WrittenWords(mem, d, sites, y);
  }

  lemma SitePatched(p: Pattern, d: seq<Word32>, mem: seq<Word32>, sites: seq<nat>, k: nat)
    requires ValidPattern(p) && |d| == 4 && Spaced(sites, |mem|) && k < |sites| && Match(p, mem, sites[k])
    ensures SiteIn(p, d, mem, WriteAll(mem, d, sites), sites[k])
  {
    hide Match, WriteAll;
    forall i | 0 <= i < 4
      ensures WriteAll(mem, d, sites)[sites[k] + i] == d[i]
    {
      SiteWord(mem, d, sites, k, i);
    }
  }

  lemma SiteWord(mem: seq<Word32>, d: seq<Word32>, sites: seq<nat>, k: nat, i: nat)
    requires |d| == 4 && Spaced(sites, |mem|) && k < |sites| && i < 4
    ensures WriteAll(mem, d, sites)[sites[k] + i] == d[i]
  {
    WrittenWords(mem, d, sites, sites[k] + i);
    hide WriteAll;
  }

  /** The words between a window's start and the first site that begins inside it are untouched. */
  lemma FreeBefore(mem: seq<Word32>, d: seq<Word32>, sites: seq<nat>, k: nat, x: nat)
    requires |d| == 4 && Spaced(sites, |mem|) && k < |sites| && x < sites[k] < x + 4
    requires forall j :: 0 <= j < |sites| ==> !(sites[j] <= x < sites[j] + 4)
    ensures forall y :: x <= y < sites[k] ==> WriteAll(mem, d, sites)[y] == mem[y]
  {
    forall y | x <= y < sites[k]
      ensures WriteAll(mem, d, sites)[y] == mem[y]
    {
      forall j | 0 <= j < |sites|
        ensures !(sites[j] <= y < sites[j] + 4)
      {
        if j < k { assert sites[j] + 4 <= sites[k]; } else if j > k { assert sites[k] + 4 <= sites[j]; }
      }
      OutsideSame(mem, d, sites, y);
    }
  }

  /* ---- Unclean patch data leaves a match in some memory ---- */

  /** Memory whose only leftmost match is at `site`, and in which the patch makes the window at `x`
      match. */
  lemma LeavesMatch(p: Pattern, d: seq<Word32>, mem: seq<Word32>, site: nat, end: nat, x: nat)
    requires ValidPattern(p) && |d| == 4 && site < end <= site + 4 && end + 3 <= |mem| && x < end
    requires Match(p, mem, site) && forall y :: 0 <= y < site ==> !Match(p, mem, y)
    requires Match(p, Write(mem, site, d), x)
    ensures !CleanScan(p, d, mem, 0, end)
  {
    hide Match, Sweep;
    LeftmostFrom(p, mem, 0, site, end);
    assert Leftmost(p, mem, site + 4, end) == [];
    assert WriteAll(mem, d, [site]) == WriteAll(Write(mem, site, d), d, []);
  }

  lemma {:induction false} LeftmostFrom(p: Pattern, mem: seq<Word32>, x: nat, site: nat, end: nat)
    requires ValidPattern(p) && x <= site < end && end + 3 <= |mem|
    requires Match(p, mem, site) && forall y :: x <= y < site ==> !Match(p, mem, y)
    ensures Leftmost(p, mem, x, end) == [site] + Leftmost(p, mem, site + 4, end)
    decreases site - x
  {
    hide Match;
    if x < site { LeftmostFrom(p, mem, x + 1, site, end); }
  }

  /** A rematch inside the patch stays there. */
  lemma AheadLeaves(p: Pattern, d: seq<Word32>, shift: nat)
    requires ValidPattern(p) && |d| == 4 && shift < 4 && Satisfiable(p) && Rematches(p, d, shift)
    ensures exists mem: seq<Word32>, start, end :: Scannable(mem, start, end) && !CleanScan(p, d, mem, start, end)
  {
    hide Accepts, Match, CleanScan;
    var tail := p.src[4 - shift..];
    var mem := p.src + tail;
    assert Write(mem, 0, d) == d + tail;
    SourceMatches(p, mem, 0);
    TailMatches(p, d, d + tail, shift, tail);
    LeavesMatch(p, d, mem, 0, shift + 1, shift);
    assert Scannable(mem, 0, shift + 1);
  }

  /** What the memory for a rematch behind has to be: `shift` words the pattern begins with, and a
      match behind them, without an earlier one. */
  predicate OnlyMatch(p: Pattern, mem: seq<Word32>, shift: nat)
    requires ValidPattern(p) && |mem| == shift + 4
  {
    && (forall j :: 0 <= j < shift && j < 4 ==> Fits(p, mem, 0, j))
    && Match(p, mem, shift)
    && (forall y :: 0 <= y < shift ==> !Match(p, mem, y))
  }

  lemma BehindLeaves(p: Pattern, d: seq<Word32>, shift: nat, mem: seq<Word32>)
    requires ValidPattern(p) && |d| == 4 && 1 <= shift < 4 && RematchesBehind(p, d, shift)
    requires |mem| == shift + 4 && OnlyMatch(p, mem, shift)
    ensures Scannable(mem, 0, shift + 1) && !CleanScan(p, d, mem, 0, shift + 1)
  {
    hide Accepts, Match, CleanScan;
    var patched := Write(mem, shift, d);
    MatchFits(p, patched, 0);
    forall j | 0 <= j < 4
      ensures Fits(p, patched, 0, j)
    {
      if j < shift {
        assert Fits(p, mem, 0, j);
      } else {
        assert FitsBehind(p, d, shift, j - shift);
      }
    }
    LeavesMatch(p, d, mem, shift, shift + 1, 0);
  }

  /** The memory for shift 1: one word `v` tells the two windows apart. */
  lemma Witness1(p: Pattern, i: nat, v: Word32) returns (mem: seq<Word32>)
    requires ValidPattern(p) && Satisfiable(p) && i < 3 && Accepts(p, i, v) && !Accepts(p, i + 1, v)
    ensures |mem| == 5 && OnlyMatch(p, mem, 1)
  {
    hide Accepts;
    mem := ([p.src[0]] + p.src)[1 + i := v];
    assert !Fits(p, mem, 0, i + 1);
  }

  lemma Witness2(p: Pattern, i: nat, v: Word32) returns (mem: seq<Word32>)
    requires ValidPattern(p) && Satisfiable(p) && i < 2 && Accepts(p, i, v) && !Accepts(p, i + 2, v)
    ensures |mem| == 6 && OnlyMatch(p, mem, 2)
  {
    hide Accepts;
    mem := (p.src[..2] + p.src)[2 + i := v];
    if Accepts(p, i + 1, v) { mem := mem[3 + i := v]; }
    assert !Fits(p, mem, 0, i + 2);
    if Accepts(p, i + 1, v) { assert !Fits(p, mem, 1, i + 2); } else { assert !Fits(p, mem, 1, i + 1); }
  }

  lemma Witness3(p: Pattern, v: Word32) returns (mem: seq<Word32>)
    requires ValidPattern(p) && Satisfiable(p) && Accepts(p, 0, v) && !Accepts(p, 3, v)
    ensures |mem| == 7 && OnlyMatch(p, mem, 3)
  {
    hide Accepts;
    mem := (p.src[..3] + p.src)[3 := v];
    var at1, at2 := Accepts(p, 1, v), Accepts(p, 2, v);
    if at1 { mem := mem[4 := v]; }
    if at2 { mem := mem[if at1 then 5 else 2 := v]; }
    assert !Fits(p, mem, 0, 3);
    if at1 {
      assert !Fits(p, mem, 1, 3);
      if at2 { assert !Fits(p, mem, 2, 3); } else { assert !Fits(p, mem, 2, 2); }
    } else {
      if at2 { assert !Fits(p, mem, 1, 1); } else { assert !Fits(p, mem, 1, 2); }
      assert !Fits(p, mem, 2, 1);
    }
  }

  lemma UncleanBehind(p: Pattern, d: seq<Word32>, shift: nat)
    requires ValidPattern(p) && |d| == 4 && 1 <= shift < 4 && Satisfiable(p)
    requires RematchesBehind(p, d, shift) && !MatchedBefore(p, shift)
    ensures exists mem: seq<Word32>, start, end :: Scannable(mem, start, end) && !CleanScan(p, d, mem, start, end)
  {
    var i: nat :| i < 4 - shift && !PassesOn(p, shift, i);
    assert Accepts(p, i, p.src[i]);
    var v := NotImplied(p.src[i], p.mask[i], p.src[i + shift], p.mask[i + shift]);
    hide Accepted, Satisfiable, OnlyMatch, CleanScan, RematchesBehind, MatchedBefore, PassesOn;
    var mem: seq<Word32>;
    if shift == 1 {
      mem := Witness1(p, i, v);
    } else if shift == 2 {
      mem := Witness2(p, i, v);
    } else {
      mem := Witness3(p, v);
    }
    BehindLeaves(p, d, shift, mem);
  }

  /** A full scan leaves every memory patched at its leftmost matches and without any match in the range
      exactly when the pattern cannot match, or no window that overlaps a patched place can match
      without having matched before. */
  lemma FullScanExactlyWhen(p: Pattern, d: seq<Word32>)
    requires ValidPattern(p) && |d| == 4
    ensures (forall mem: seq<Word32>, start, end :: Scannable(mem, start, end) ==> CleanScan(p, d, mem, start, end))
            <==> Clean(p, d)
  {
    hide LeftmostPatched, Match, Rematches, RematchesBehind, MatchedBefore;
    if Clean(p, d) {
      hide Clean, Satisfiable;
      forall mem: seq<Word32>, start: nat, end: nat | Scannable(mem, start, end)
        ensures CleanScan(p, d, mem, start, end)
      {
        CleanIsSettled(p, d);
        SettledSweep(p, d, mem, start, end);
        forall x | start <= x < end
          ensures !Match(p, Sweep(p, d, mem, start, end), x)
        {
          NoMatchRemains(p, d, mem, start, end, x);
        }
      }
    } else {
      hide CleanScan;
      if shift: nat :| shift < 4 && Rematches(p, d, shift) {
        AheadLeaves(p, d, shift);
      } else {
        var shift: nat :| 1 <= shift < 4 && RematchesBehind(p, d, shift) && !MatchedBefore(p, shift);
        UncleanBehind(p, d, shift);
      }
    }
  }

  lemma {:induction false} NothingToSweep(p: Pattern, d: seq<Word32>, mem: seq<Word32>, x: nat, end: nat)
    requires ValidPattern(p) && |d| == 4 && Scannable(mem, x, end)
    requires forall y :: x <= y < end ==> !Match(p, mem, y)
    ensures Sweep(p, d, mem, x, end) == mem
    decreases end - x
  {
    hide Match;
    if x < end {
      NothingToSweep(p, d, mem, x + 1, end);
    }
  }

  /** A second full scan finds nothing and changes nothing. */
  lemma SecondScanIsIdle(p: Pattern, d: seq<Word32>, mem: seq<Word32>, start: nat, end: nat)
    requires ValidPattern(p) && |d| == 4 && Scannable(mem, start, end) && Clean(p, d)
    ensures var once := Sweep(p, d, mem, start, end);
            First(p, once, start, end) == None && Sweep(p, d, once, start, end) == once
  {
    hide Match, Clean;
    var once := Sweep(p, d, mem, start, end);
    forall y | start <= y < end
      ensures !Match(p, once, y)
    {
      NoMatchRemains(p, d, mem, start, end, y);
    }
    NothingToSweep(p, d, once, start, end);
    FirstIsLeast(p, once, start, end);
  }

  /** If no word of the patch data can pass for any word of the pattern, the patch is clean. */
  lemma ForeignWordsAreClean(p: Pattern, d: seq<Word32>)
    requires ValidPattern(p) && |d| == 4
    requires forall i, j :: 0 <= i < 4 && 0 <= j < 4 ==> !Accepts(p, j, d[i])
    ensures Clean(p, d)
  {
    hide Accepts, Satisfiable, MatchedBefore;
    forall shift | 0 <= shift < 4
      ensures !Rematches(p, d, shift)
    {
      assert !Fits(p, d, shift, 0);
    }
    forall shift | 1 <= shift < 4
      ensures !RematchesBehind(p, d, shift)
    {
      assert !FitsBehind(p, d, shift, 0);
    }
  }

  /* ---- Patching memory in place ---- */

  lemma {:induction false} SweepToFirst(p: Pattern, d: seq<Word32>, mem: seq<Word32>, x: nat, end: nat)
    requires ValidPattern(p) && |d| == 4 && Scannable(mem, x, end)
    ensures match First(p, mem, x, end)
            case None => Sweep(p, d, mem, x, end) == mem
            case Some(f) => Sweep(p, d, mem, x, end) == Sweep(p, d, Write(mem, f, d), f + 1, end)
    decreases end - x
  {
    hide Match;
    if x < end && !Match(p, mem, x) {
      SweepToFirst(p, d, mem, x + 1, end);
    }
  }

  /** The SEARCH_SCAN branch of `patch_ELF`. */
  method SearchScan(p: Pattern, d: seq<Word32>, mem: array<Word32>, buffer: nat, end: nat, terminateOnFind: bool)
    requires ValidPattern(p) && |d| == 4 && Scannable(mem[..], buffer, end)
    modifies mem
    ensures !terminateOnFind ==> mem[..] == Sweep(p, d, old(mem[..]), buffer, end)
    ensures !terminateOnFind && Settled(p, d) ==> LeftmostPatched(p, d, old(mem[..]), mem[..], buffer, end)
    ensures terminateOnFind ==>
              var first := First(p, old(mem[..]), buffer, end);
              mem[..] == if first.None? then old(mem[..]) else Write(old(mem[..]), first.value, d)
  {
    hide Match, Settled, LeftmostPatched;
    ghost var swept := Sweep(p, d, mem[..], buffer, end);
    if Settled(p, d) { SettledSweep(p, d, mem[..], buffer, end); }
    var x := buffer;
    while true
      invariant buffer <= x && (x <= end || x == buffer)
      invariant terminateOnFind ==> x == buffer && mem[..] == old(mem[..])
      invariant swept == Sweep(p, d, mem[..], x, end)
      decreases end - x
    {
      ghost var before := mem[..];
      SweepToFirst(p, d, before, x, end);
      var found := ScanPattern(p, mem, x, end);
      if found.None? { break; }
      CopyIn(mem, found.value, d);
      if terminateOnFind { break; }
      x := found.value + 1;
      if x >= end { break; }
    }
  }

  method CopyIn(mem: array<Word32>, x: nat, d: seq<Word32>)
    requires |d| == 4 && x + 4 <= mem.Length
    modifies mem
    ensures mem[..] == Write(old(mem[..]), x, d)
  {
    forall i | 0 <= i < 4 {
      mem[x + i] := d[i];
    }
  }

  /** `JAL(addr)`: the jump opcode over bits 2..27 of the address. */
  function Jal(addr: Word32): Word32 { 0x0C00_0000 + addr / 4 % 0x400_0000 }

  /** `GETJADDR(addr)`: the address a jump instruction goes to. */
  function JumpTarget(w: Word32): Word32 { w % 0x400_0000 * 4 }

  /** Exactly the word-aligned addresses below 2^28 survive the instruction. */
  lemma JumpRoundTrip(addr: Word32)
    ensures JumpTarget(Jal(addr)) == addr <==> addr % 4 == 0 && addr < 0x1000_0000
  {
  }

  /** The list of matches begins with the first one and goes on behind it. */
  lemma {:induction false} MatchesBehindFirst(p: Pattern, mem: seq<Word32>, x: nat, end: nat)
    requires ValidPattern(p) && Scannable(mem, x, end)
    ensures Matches(p, mem, x, end) == match First(p, mem, x, end)
                                       case None => []
                                       case Some(f) => [f] + Matches(p, mem, f + 1, end)
    decreases end - x
  {
    hide Match;
    if x < end && !Match(p, mem, x) {
      MatchesBehindFirst(p, mem, x + 1, end);
    }
  }

  /** An unsigned index from an address, in words: byte addresses are 32-bit, so word addresses wrap
      after 2^30 and an index just below 2^32 reaches back. */
  function Indexed(at: int, index: Word32): nat { (at + index) % 0x4000_0000 }

  /** The word the BLOCKING_MODULE_PATCH branch rewrites: that index from the `n`-th match, and from
      the word before the range for n = 0; None when there are fewer than `n` matches. */
  function Target(p: Pattern, mem: seq<Word32>, start: nat, end: nat, n: nat, index: Word32): Option<nat>
    requires ValidPattern(p) && Scannable(mem, start, end)
  {
    var ms := Matches(p, mem, start, end);
    if n == 0 then Some(Indexed(start - 1, index))
    else if n <= |ms| then Some(Indexed(ms[n - 1], index))
    else None
  }

  /** An index that stays inside the address space counts forward, and one that runs over its top by no
      more than `at` words counts back. */
  lemma IndexReaches(at: nat, index: Word32)
    ensures at + index < 0x4000_0000 ==> Indexed(at, index) == at + index
    ensures TWO_32 - index <= at < 0x4000_0000 ==> Indexed(at, index) == at - (TWO_32 - index)
  {
    assert TWO_32 == 4 * 0x4000_0000;
    if TWO_32 - index <= at < 0x4000_0000 {
      assert at + index == 4 * 0x4000_0000 + (at - (TWO_32 - index));
    }
  }

  /** From `before` to `after` the word at `at` alone becomes a jump and link (opcode 3 in the top six
      bits) to `hook`, and `saved` is where the word there jumped to. */
  predicate Hooked(before: seq<Word32>, after: seq<Word32>, at: nat, hook: Word32, saved: Word32) {
    && |before| == |after| && at < |after|
    && (forall x :: 0 <= x < |after| && x != at ==> after[x] == before[x])
    && after[at] / 0x400_0000 == 3 && after[at] % 0x400_0000 == hook / 4 % 0x400_0000
    && saved == before[at] % 0x400_0000 * 4
  }

  /** What the branch does, by the list `ms` of all matches. */
  predicate HookedAt(before: seq<Word32>, after: seq<Word32>, start: nat, ms: seq<nat>, n: nat, index: Word32,
                     hook: Word32, loadPackedModule: Word32, saved: Word32) {
    if n == 0 then Hooked(before, after, (start - 1 + index) % 0x4000_0000, hook, saved)
    else if n <= |ms| then Hooked(before, after, (ms[n - 1] + index) % 0x4000_0000, hook, saved)
    else after == before && saved == loadPackedModule
  }

  lemma JalHooks(before: seq<Word32>, at: nat, hook: Word32)
    requires at < |before|
    ensures Hooked(before, before[at := Jal(hook)], at, hook, JumpTarget(before[at]))
  {
    var low := hook / 4 % 0x400_0000;
    assert (3 * 0x400_0000 + low) / 0x400_0000 == 3 && (3 * 0x400_0000 + low) % 0x400_0000 == low;
  }

  lemma TargetIsHooked(p: Pattern, before: seq<Word32>, start: nat, end: nat, n: nat, index: Word32,
                       hook: Word32, loadPackedModule: Word32)
    requires ValidPattern(p) && Scannable(before, start, end)
    requires var t := Target(p, before, start, end, n, index); t.Some? ==> t.value < |before|
    ensures forall ms :: AllAscending(p, before, start, end, ms) ==>
              match Target(p, before, start, end, n, index)
              case None => HookedAt(before, before, start, ms, n, index, hook, loadPackedModule, loadPackedModule)
              case Some(at) => HookedAt(before, before[at := Jal(hook)], start, ms, n, index, hook, loadPackedModule,
                                        JumpTarget(before[at]))
  {
    hide Jal, JumpTarget, Match, Matches, AllAscending, Hooked;
    var t := Target(p, before, start, end, n, index);
    if t.Some? { JalHooks(before, t.value, hook); }
    MatchesAreAll(p, before, start, end);
    forall ms | AllAscending(p, before, start, end, ms)
      ensures ms == Matches(p, before, start, end)
    {
      OnlyList(p, before, start, end, ms, Matches(p, before, start, end));
    }
  }

  /** The BLOCKING_MODULE_PATCH branch of `patch_ELF`; `saved` is what `LoadPackedModule` becomes. */
  method BlockingModulePatch(p: Pattern, mem: array<Word32>, start: nat, end: nat, n: nat, index: Word32,
                             hook: Word32, loadPackedModule: Word32) returns (saved: Word32)
    requires ValidPattern(p) && Scannable(mem[..], start, end)
    requires var t := Target(p, mem[..], start, end, n, index); t.Some? ==> t.value < mem.Length
    modifies mem
    ensures var t := Target(p, old(mem[..]), start, end, n, index);
            && mem[..] == (if t.Some? then old(mem[..])[t.value := Jal(hook)] else old(mem[..]))
            && saved == (if t.Some? then JumpTarget(old(mem[..])[t.value]) else loadPackedModule)
    ensures forall ms :: AllAscending(p, old(mem[..]), start, end, ms) ==>
              HookedAt(old(mem[..]), mem[..], start, ms, n, index, hook, loadPackedModule, saved)
  {
    hide Jal, JumpTarget, Indexed, Match, Matches, AllAscending, Hooked;
    TargetIsHooked(p, mem[..], start, end, n, index, hook, loadPackedModule);
    saved := loadPackedModule;
    var ptr := ScanTimes(p, mem, start, end, n);
    if ptr.Some? {
      var last := ptr.value as int - 1;
      assert Target(p, mem[..], start, end, n, index) == Some(Indexed(last, index));
      var at := Indexed(last, index);
      saved := JumpTarget(mem[at]);
      mem[at] := Jal(hook);
    } else {
      assert Target(p, mem[..], start, end, n, index) == None;
    }
  }

  /** Where the `n`-th of a chain of scans ends, one word behind its match. */
  function Behind(p: Pattern, mem: seq<Word32>, x: nat, end: nat, n: nat): Option<nat>
    requires ValidPattern(p) && Scannable(mem, x, end)
    decreases n
  {
    if n == 0 then Some(x)
    else match First(p, mem, x, end)
      case None => None
      case Some(f) => Behind(p, mem, f + 1, end, n - 1)
  }

  /** The word behind the `n`-th of these positions. */
  function BehindNth(x: nat, ms: seq<nat>, n: nat): Option<nat> {
    if n == 0 then Some(x) else if n <= |ms| then Some(ms[n - 1] + 1) else None
  }

  lemma BehindRest(x: nat, f: nat, rest: seq<nat>, n: nat)
    requires n > 0
    ensures BehindNth(x, [f] + rest, n) == BehindNth(f + 1, rest, n - 1)
    ensures BehindNth(x, [], n) == None
  {
  }

  /** A chain of scans counts off the list of all matches. */
  lemma {:induction false} ScansCountMatches(p: Pattern, mem: seq<Word32>, x: nat, end: nat, n: nat)
    requires ValidPattern(p) && Scannable(mem, x, end)
    ensures Behind(p, mem, x, end, n) == BehindNth(x, Matches(p, mem, x, end), n)
    decreases n
  {
    hide Match, Matches, First;
    if n > 0 {
      MatchesBehindFirst(p, mem, x, end);
      var first := First(p, mem, x, end);
      if first.Some? {
        var f, rest := first.value, Matches(p, mem, first.value + 1, end);
        ScansCountMatches(p, mem, f + 1, end, n - 1);
        BehindRest(x, f, rest, n);
      }
    }
  }

  lemma BehindStep(p: Pattern, mem: seq<Word32>, x: nat, end: nat, n: nat)
    requires ValidPattern(p) && Scannable(mem, x, end) && n > 0
    ensures Behind(p, mem, x, end, 0) == Some(x)
    ensures Behind(p, mem, x, end, n) == match First(p, mem, x, end)
                                         case None => None
                                         case Some(f) => Behind(p, mem, f + 1, end, n - 1)
  {
    hide First;
  }

  /** The loop of that branch: `n` scans, each from the word behind the last match. */
  method ScanTimes(p: Pattern, mem: array<Word32>, start: nat, end: nat, n: nat) returns (ptr: Option<nat>)
    requires ValidPattern(p) && Scannable(mem[..], start, end)
    ensures ptr == BehindNth(start, Matches(p, mem[..], start, end), n)
  {
    hide Match, Matches, First, Behind, BehindNth;
    ghost var m := mem[..];
    ScansCountMatches(p, m, start, end, n);
    var x: nat, i: nat := start, 0;
    while i < n
      invariant 0 <= i <= n && x <= |m|
      invariant Behind(p, m, start, end, n) == Behind(p, m, x, end, n - i)
    {
      BehindStep(p, m, x, end, n - i);
      var found := ScanPattern(p, mem, x, end);
      if found.None? { return None; }
      x := found.value + 1;
      i := i + 1;
    }
    BehindStep(p, m, x, end, 1);
    ptr := Some(x);
  }
}
