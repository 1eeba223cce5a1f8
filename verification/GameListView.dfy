/** The scrolling window of the game list: cursor keys, switching between lists, and which entry is
    drawn first. */
module GameListView {

  const SUPPORTED_GAME_FORMATS := 4
  const SYSTEM_INVALID := 0xFF

  /** `struct GameList`, without the entries themselves. */
  datatype GameList = GameList(
    nGames: nat,
    inList: nat,      // CurrentlySelectedIndexInList
    onScreen: nat,    // CurrentlySelectedIndexOnScreen
    bottom: nat)      // old_list_bottom_ID

  /** The pad in one turn of the main loop; `ready`: the poll delay has passed; `start`: CIRCLE, CROSS
      or START. */
  datatype Pad = Pad(up: bool, down: bool, left: bool, right: bool, start: bool, ready: bool)

  /** The start keys are looked at only without LEFT and RIGHT, and they leave the turn before its
      recalculation and its drawing. A start that fails comes back to the loop. */
  predicate Recalculates(pad: Pad) { pad.left || pad.right || !pad.start }

  function Min(a: nat, b: nat): nat { if a > b then b else a }

  /** How many titles are shown of a list when `room` fit. */
  function Displayed(l: GameList, room: nat): nat { Min(l.nGames, room) }

  /* ---- One frame ---- */

  function Up(l: GameList, room: nat): GameList
    requires l.nGames > 0 && room > 0
  {
    if l.inList > 0 then
      l.(inList := l.inList - 1, onScreen := if l.onScreen > 0 then l.onScreen - 1 else l.onScreen)
    else l.(inList := l.nGames - 1, onScreen := Displayed(l, room) - 1)
  }

  function Down(l: GameList, room: nat): GameList
    requires l.nGames > 0 && room > 0
  {
    if l.inList < l.nGames - 1 then
      l.(inList := l.inList + 1, onScreen := if l.onScreen < room - 1 then l.onScreen + 1 else l.onScreen)
    else l.(inList := 0, onScreen := 0)
  }

  function MoveCursor(l: GameList, room: nat, pad: Pad): GameList
    requires l.nGames > 0 && room > 0
  {
    if !pad.ready then l else if pad.up then Up(l, room) else if pad.down then Down(l, room) else l
  }

  /** The recalculation of the bottom entry, which ends a frame that starts no game. */
  function Recalculate(l: GameList, room: nat): GameList
    requires room > 0
  {
    if l.bottom > l.inList + room - 1 then l.(bottom := l.inList + room - 1)
    else if l.bottom < l.inList then l.(bottom := l.inList)
    else l
  }

  /** The first title `redrawGameListScreenBackground` draws. */
  function ListBase(l: GameList, room: nat): int {
    if l.onScreen == 0 then l.inList
    else if l.onScreen == room - 1 then l.inList - (room - 1)
    else l.bottom - (Displayed(l, room) - 1)
  }

  /** The title the cursor implies for the first row. */
  function Base(l: GameList): int { l.inList - l.onScreen }

  /** The window shows the selected entry where the highlight is, and only entries that exist. */
  predicate Aligned(l: GameList, room: nat) {
    && ListBase(l, room) == Base(l)
    && 0 <= ListBase(l, room) && ListBase(l, room) + Displayed(l, room) <= l.nGames
  }

  type Lists = seq<GameList>

  function Neighbour(c: nat, forward: bool): (n: nat)
    requires c < SUPPORTED_GAME_FORMATS
    ensures n < SUPPORTED_GAME_FORMATS
  {
    if forward then (if c + 1 == SUPPORTED_GAME_FORMATS then 0 else c + 1)
    else (if c == 0 then SUPPORTED_GAME_FORMATS - 1 else c - 1)
  }

  /** The first nonempty list among `tries` from `c` on, going round. */
  function Search(lists: Lists, c: nat, forward: bool, tries: nat): (r: nat)
    requires |lists| == SUPPORTED_GAME_FORMATS && c < SUPPORTED_GAME_FORMATS
    ensures r == SYSTEM_INVALID || (r < SUPPORTED_GAME_FORMATS && lists[r].nGames > 0)
    decreases tries
  {
    if tries == 0 then SYSTEM_INVALID
    else if lists[c].nGames > 0 then c
    else Search(lists, Neighbour(c, forward), forward, tries - 1)
  }

  /** How many steps in a direction lead from list `c` to list `i`. */
  function Distance(c: nat, i: nat, forward: bool): (d: nat)
    requires c < SUPPORTED_GAME_FORMATS && i < SUPPORTED_GAME_FORMATS
    ensures d < SUPPORTED_GAME_FORMATS && (d == 0 <==> c == i)
  {
    var d := if forward then i - c else c - i;
    if d >= 0 then d else d + SUPPORTED_GAME_FORMATS
  }

  predicate EmptyWithin(lists: Lists, c: nat, forward: bool, steps: int)
    requires |lists| == SUPPORTED_GAME_FORMATS && c < SUPPORTED_GAME_FORMATS
  {
    forall i :: 0 <= i < SUPPORTED_GAME_FORMATS && Distance(c, i, forward) < steps ==> lists[i].nGames == 0
  }

  /** The search finds the nearest list with games; with four tries it misses only if every list is
      empty. */
  lemma {:induction false} SearchFinds(lists: Lists, c: nat, forward: bool, tries: nat)
    requires |lists| == SUPPORTED_GAME_FORMATS && c < SUPPORTED_GAME_FORMATS
    ensures var r := Search(lists, c, forward, tries);
            if r == SYSTEM_INVALID then EmptyWithin(lists, c, forward, tries)
            else Distance(c, r, forward) < tries && EmptyWithin(lists, c, forward, Distance(c, r, forward))
    decreases tries
  {
    if tries > 0 && lists[c].nGames == 0 {
      var next := Neighbour(c, forward);
      SearchFinds(lists, next, forward, tries - 1);
      var r := Search(lists, next, forward, tries - 1);
      var steps := if r == SYSTEM_INVALID then tries else Distance(c, r, forward);
      OneStep(c, c, forward);
      if r != SYSTEM_INVALID { OneStep(c, r, forward); }
      assert Search(lists, c, forward, tries) == r;
      hide Search, Distance, Neighbour;
      forall i | 0 <= i < SUPPORTED_GAME_FORMATS && Distance(c, i, forward) < steps
        ensures lists[i].nGames == 0
      {
        OneStep(c, i, forward);
      }
    }
  }

  lemma OneStep(c: nat, i: nat, forward: bool)
    requires c < SUPPORTED_GAME_FORMATS && i < SUPPORTED_GAME_FORMATS
    ensures Distance(Neighbour(c, forward), i, forward)
         == if i == c then SUPPORTED_GAME_FORMATS - 1 else Distance(c, i, forward) - 1
  {
  }

  predicate AllEmpty(lists: Lists, from: nat, to: nat)
    requires to <= |lists|
  {
    forall i :: from <= i < to ==> lists[i].nGames == 0
  }

  /** By index: forward, the next nonempty list at or above `c`, and failing that the first of all;
      backward, the next at or below `c`, and failing that the last of all. */
  lemma SearchNearest(lists: Lists, c: nat, forward: bool)
    requires |lists| == SUPPORTED_GAME_FORMATS && c < SUPPORTED_GAME_FORMATS
    ensures var r, n := Search(lists, c, forward, SUPPORTED_GAME_FORMATS), 4;
            if r == SYSTEM_INVALID then AllEmpty(lists, 0, n)
            else
              && r < n && lists[r].nGames > 0
              && (forward ==> if r >= c then AllEmpty(lists, c, r) else AllEmpty(lists, c, n) && AllEmpty(lists, 0, r))
              && (!forward ==> if r <= c then AllEmpty(lists, r + 1, c + 1)
                               else AllEmpty(lists, 0, c + 1) && AllEmpty(lists, r + 1, n))
  {
    SearchFinds(lists, c, forward, SUPPORTED_GAME_FORMATS);
    hide Search;
    var r := Search(lists, c, forward, SUPPORTED_GAME_FORMATS);
    if r != SYSTEM_INVALID {
      forall i | 0 <= i < SUPPORTED_GAME_FORMATS && if forward then c <= i < r || r < c <= i || (i < r && r < c)
                                                    else r < i <= c || i <= c < r || (c < r && r < i)
        ensures lists[i].nGames == 0
      {
        assert Distance(c, i, forward) < Distance(c, r, forward);
      }
    }
    hide EmptyWithin, Distance;
  }

  /** The list on show after the LEFT and RIGHT keys. */
  function Switched(lists: Lists, active: nat, pad: Pad): nat
    requires |lists| == SUPPORTED_GAME_FORMATS && active < SUPPORTED_GAME_FORMATS
  {
    if pad.left then Search(lists, if active > 0 then active - 1 else active, false, SUPPORTED_GAME_FORMATS)
    else if pad.right then
      Search(lists, if active < SUPPORTED_GAME_FORMATS - 1 then active + 1 else active, true, SUPPORTED_GAME_FORMATS)
    else active
  }

  datatype Screen = Screen(lists: Lists, active: nat)

  /** A list is on show, and it has games. */
  predicate Showing(s: Screen) {
    |s.lists| == SUPPORTED_GAME_FORMATS && s.active < SUPPORTED_GAME_FORMATS && s.lists[s.active].nGames > 0
  }

  /** The keys of a frame: the cursor moves, then LEFT and RIGHT choose the list on show. */
  function Keys(s: Screen, room: nat, pad: Pad): (s': Screen)
    requires Showing(s) && room > 0
    ensures Showing(s')
    ensures forall i :: 0 <= i < SUPPORTED_GAME_FORMATS ==> s'.lists[i].nGames == s.lists[i].nGames
  {
    var moved := s.lists[s.active := MoveCursor(s.lists[s.active], room, pad)];
    StillFound(moved, s.active, pad);
    Screen(moved, Switched(moved, s.active, pad))
  }

  /** One turn of the loop; with a start key, one whose start fails. */
  function Frame(s: Screen, room: nat, pad: Pad): (s': Screen)
    requires Showing(s) && room > 0
    ensures Showing(s')
    ensures forall i :: 0 <= i < SUPPORTED_GAME_FORMATS ==> s'.lists[i].nGames == s.lists[i].nGames
  {
    var k := Keys(s, room, pad);
    if Recalculates(pad) then k.(lists := k.lists[k.active := Recalculate(k.lists[k.active], room)]) else k
  }

  lemma StillFound(lists: Lists, active: nat, pad: Pad)
    requires |lists| == SUPPORTED_GAME_FORMATS && active < SUPPORTED_GAME_FORMATS && lists[active].nGames > 0
    ensures var r := Switched(lists, active, pad); r < SUPPORTED_GAME_FORMATS && lists[r].nGames > 0
  {
    if pad.left {
      SearchFinds(lists, if active > 0 then active - 1 else active, false, SUPPORTED_GAME_FORMATS);
    } else if pad.right {
      SearchFinds(lists, if active < SUPPORTED_GAME_FORMATS - 1 then active + 1 else active, true,
                  SUPPORTED_GAME_FORMATS);
    }
    hide Search;
  }

  /* ---- What the keys do ---- */

  /** Where a frame puts the cursor: UP is one title back and DOWN one title on, round the end; the
      highlight moves with it while there is a row to move to, and otherwise the window does; round the
      end it goes to the last row over the last titles, or to the first row over the first. */
  lemma CursorMoves(s: Screen, room: nat, pad: Pad)
    requires Showing(s) && room > 0 && s.lists[s.active].inList < s.lists[s.active].nGames
    ensures var l, l' := s.lists[s.active], Frame(s, room, pad).lists[s.active];
            var n := l.nGames;
            if pad.ready && pad.up then
              && l'.inList == (l.inList + n - 1) % n
              && (if l.inList == 0 then l'.onScreen == (if n > room then room else n) - 1
                  else if l.onScreen > 0 then l'.onScreen == l.onScreen - 1 && Base(l') == Base(l)
                  else l'.onScreen == 0 && Base(l') == Base(l) - 1)
            else if pad.ready && pad.down then
              && l'.inList == (l.inList + 1) % n
              && (if l.inList == n - 1 then l'.onScreen == 0
                  else if l.onScreen < room - 1 then l'.onScreen == l.onScreen + 1 && Base(l') == Base(l)
                  else l'.onScreen == l.onScreen && Base(l') == Base(l) + 1)
            else l'.inList == l.inList && l'.onScreen == l.onScreen
  {
    hide Switched;
    var l := s.lists[s.active];
    BackOne(l.inList, l.nGames);
    OnOne(l.inList, l.nGames);
  }

  lemma BackOne(i: nat, n: nat)
    requires i < n
    ensures (i + n - 1) % n == if i == 0 then n - 1 else i - 1
  {
    if i > 0 { assert i + n - 1 == n + (i - 1); WrapsOnce(i - 1, n); }
  }

  lemma OnOne(i: nat, n: nat)
    requires i < n
    ensures (i + 1) % n == if i == n - 1 then 0 else i + 1
  {
  }

  lemma WrapsOnce(i: nat, n: nat)
    requires i < n
    ensures (n + i) % n == i
  {
  }

  /** What a frame leaves alone: the cursors of the lists not on show before it, all numbers of games,
      and every bottom entry but that of the list on show after it, which moves only as far as it must
      to lie within a window below the selected title, and not at all when a game is started. */
  lemma FrameLeaves(s: Screen, room: nat, pad: Pad, i: nat)
    requires Showing(s) && room > 0 && i < SUPPORTED_GAME_FORMATS
    ensures var s' := Frame(s, room, pad);
            var l, l' := s.lists[i], s'.lists[i];
            var low, high := l'.inList, l'.inList + room - 1;
            && l'.nGames == l.nGames
            && (i != s.active ==> l'.inList == l.inList && l'.onScreen == l.onScreen)
            && (if i == s'.active && !(pad.start && !pad.left && !pad.right) then
                  && low <= l'.bottom <= high
                  && (l.bottom < l'.bottom ==> l'.bottom == low) && (l'.bottom < l.bottom ==> l'.bottom == high)
                else l'.bottom == l.bottom)
  {
    hide Switched;
  }

  /** LEFT shows the next list with games below the one on show, and if there is none the last of all;
      RIGHT the next above, and if there is none the first of all. But on the list of the first format
      LEFT stays there, and on that of the last RIGHT. */
  lemma KeysSwitch(s: Screen, room: nat, pad: Pad)
    requires Showing(s) && room > 0
    ensures var r, n := Frame(s, room, pad).active, 4;
            if pad.left then
              if s.active == 0 then r == 0
              else if r < s.active then AllEmpty(s.lists, r + 1, s.active)
              else AllEmpty(s.lists, 0, s.active) && AllEmpty(s.lists, r + 1, n)
            else if pad.right then
              if s.active == n - 1 then r == n - 1
              else if r > s.active then AllEmpty(s.lists, s.active + 1, r)
              else AllEmpty(s.lists, s.active + 1, n) && AllEmpty(s.lists, 0, r)
            else r == s.active
  {
    hide Search, MoveCursor;
    var n, moved := SUPPORTED_GAME_FORMATS, Keys(s, room, pad).lists;
    if pad.left {
      SearchNearest(moved, if s.active > 0 then s.active - 1 else 0, false);
    } else if pad.right {
      SearchNearest(moved, if s.active < n - 1 then s.active + 1 else n - 1, true);
    }
    assert forall i :: 0 <= i < n ==> moved[i].nGames == s.lists[i].nGames;
    hide Keys;
  }

  /* ---- Staying in step ---- */

  /** A list as loading leaves it. */
  predicate Loaded(l: GameList) {
    l.inList == 0 && l.onScreen == 0 && (l.nGames > 0 ==> l.bottom == l.nGames - 1)
  }

  /** The cursor is on a row of a window over titles that exist, and the bottom entry ends the window
      that begins at `seen`. With room for one or two titles the bottom entry is never looked at. */
  predicate Follows(l: GameList, room: nat, seen: int) {
    var d := Displayed(l, room);
    && l.onScreen < d && l.inList < l.nGames
    && 0 <= Base(l) <= l.nGames - d && 0 <= seen <= l.nGames - d
    && (room >= 3 ==> l.bottom == seen + d - 1)
  }

  /** The window in step with the cursor. */
  predicate InStep(l: GameList, room: nat) { Follows(l, room, Base(l)) }

  lemma InStepIsAligned(l: GameList, room: nat)
    requires InStep(l, room)
    ensures Aligned(l, room)
  {
  }

  /** Where the bottom entry of a freshly loaded list has the window begin. */
  function LastBase(l: GameList, room: nat): int { l.nGames - Displayed(l, room) }

  lemma LoadedFollows(l: GameList, room: nat)
    requires room > 0 && Loaded(l) && l.nGames > 0
    ensures Follows(l, room, LastBase(l, room))
  {
  }

  /** The cursor moved the window away from `seen`, and the highlight is not on the row at the end it
      moved towards. */
  predicate Slipped(seen: int, l: GameList, room: nat) {
    && room >= 3
    && ((Base(l) < seen && l.onScreen != 0) || (Base(l) > seen && l.onScreen != room - 1))
  }

  lemma MoveFollows(l: GameList, room: nat, pad: Pad, seen: int)
    requires room > 0 && Follows(l, room, seen)
    ensures Follows(MoveCursor(l, room, pad), room, seen)
  {
    if pad.ready && pad.up {
      if l.inList > 0 { } else { }
    } else if pad.ready && pad.down {
      if l.inList < l.nGames - 1 { } else { }
    }
  }

  /** The recalculation brings a list back in step exactly when it has not slipped. */
  lemma RecalculateFollows(l: GameList, room: nat, seen: int)
    requires room > 0 && Follows(l, room, seen)
    ensures InStep(Recalculate(l, room), room) <==> !Slipped(seen, l, room)
  {
    if l.nGames <= room { } else { }
  }

  function UpKey(): Pad { Pad(true, false, false, false, false, true) }
  function DownKey(): Pad { Pad(false, true, false, false, false, true) }

  /** A list that has slipped is drawn wrong at once or after one more UP or DOWN. */
  lemma SlipShows(l: GameList, room: nat, seen: int)
    requires room > 0 && Follows(l, room, seen) && Slipped(seen, l, room)
    ensures var now := Recalculate(l, room);
            var key := if l.onScreen == 0 then DownKey() else UpKey();
            !Aligned(now, room) || !Aligned(Recalculate(MoveCursor(now, room, key), room), room)
  {
    assert l.nGames > room;
    if l.onScreen == 0 {
    } else if l.onScreen == room - 1 {
    } else {
    }
  }

  lemma FrameKeepsStep(l: GameList, room: nat, pad: Pad)
    requires room > 0 && InStep(l, room)
    ensures InStep(Recalculate(MoveCursor(l, room, pad), room), room)
  {
    var moved := MoveCursor(l, room, pad);
    MoveFollows(l, room, pad, Base(l));
    MoveBesideWindow(l, room, pad);
    RecalculateFollows(moved, room, Base(l));
  }

  /** One move of the cursor pushes the window only from the row at that end. */
  lemma MoveBesideWindow(l: GameList, room: nat, pad: Pad)
    requires room > 0 && InStep(l, room)
    ensures !Slipped(Base(l), MoveCursor(l, room, pad), room)
  {
    if pad.ready && pad.up {
      if l.inList > 0 { } else { }
    } else if pad.ready && pad.down {
      if l.inList < l.nGames - 1 { } else { }
    }
  }

  /** DOWN in the very first frame after loading a list that does not fit. */
  predicate FirstFrameSlips(l: GameList, room: nat, pad: Pad) {
    pad.ready && pad.down && !pad.up && l.nGames > room >= 3
  }

  lemma FirstFrame(l: GameList, room: nat, pad: Pad)
    requires room > 0 && Loaded(l) && l.nGames > 0
    ensures InStep(Recalculate(MoveCursor(l, room, pad), room), room) <==> !FirstFrameSlips(l, room, pad)
    ensures FirstFrameSlips(l, room, pad) ==>
              var l' := Recalculate(MoveCursor(l, room, pad), room);
              ListBase(l', room) == l'.inList - l'.onScreen + 1
  {
  }

  /* ---- Runs of frames ---- */

  /** The screen after the frames of `pads`. */
  function After(s: Screen, room: nat, pads: seq<Pad>): (s': Screen)
    requires Showing(s) && room > 0
    ensures Showing(s')
  {
    if pads == [] then s else Frame(After(s, room, pads[..|pads| - 1]), room, pads[|pads| - 1])
  }

  predicate AllLoaded(s: Screen) { Showing(s) && forall i :: 0 <= i < SUPPORTED_GAME_FORMATS ==> Loaded(s.lists[i]) }

  /** The list on show is drawn aligned after `pads`. */
  predicate Shows(s: Screen, room: nat, pads: seq<Pad>)
    requires Showing(s) && room > 0
  {
    var v := After(s, room, pads);
    Aligned(v.lists[v.active], room)
  }

  /** Where the window of each list began when its bottom entry was last recalculated: a matter of the
      cursors alone. */
  function Seen(s: Screen, room: nat, pads: seq<Pad>): (r: seq<int>)
    requires Showing(s) && room > 0
    ensures |r| == SUPPORTED_GAME_FORMATS
  {
    if pads == [] then seq(SUPPORTED_GAME_FORMATS, i requires 0 <= i < |s.lists| => LastBase(s.lists[i], room))
    else NextSeen(Seen(s, room, pads[..|pads| - 1]), After(s, room, pads), pads[|pads| - 1])
  }

  function NextSeen(seen: seq<int>, s: Screen, pad: Pad): (r: seq<int>)
    requires Showing(s) && |seen| == SUPPORTED_GAME_FORMATS
    ensures |r| == SUPPORTED_GAME_FORMATS
  {
    if Recalculates(pad) then seen[s.active := Base(s.lists[s.active])] else seen
  }

  /** The last frame of `pads` recalculates a list that has slipped since its last recalculation. */
  predicate Slips(s: Screen, room: nat, pads: seq<Pad>)
    requires Showing(s) && room > 0 && pads != []
  {
    var v := After(s, room, pads);
    Recalculates(pads[|pads| - 1]) && Slipped(Seen(s, room, pads[..|pads| - 1])[v.active], v.lists[v.active], room)
  }

  /** What a run without a slip keeps. */
  predicate AllFollow(v: Screen, room: nat, seen: seq<int>)
    requires Showing(v) && |seen| == SUPPORTED_GAME_FORMATS
  {
    forall i :: 0 <= i < SUPPORTED_GAME_FORMATS && v.lists[i].nGames > 0 ==> Follows(v.lists[i], room, seen[i])
  }

  lemma KeysFollow(v: Screen, room: nat, pad: Pad, seen: seq<int>)
    requires Showing(v) && room > 0 && |seen| == SUPPORTED_GAME_FORMATS && AllFollow(v, room, seen)
    ensures AllFollow(Keys(v, room, pad), room, seen)
  {
    MoveFollows(v.lists[v.active], room, pad, seen[v.active]);
    hide Follows, Switched, MoveCursor;
  }

  /** A frame that does not slip keeps it, and leaves the list it recalculates in step. */
  lemma FrameFollows(v: Screen, room: nat, pad: Pad, seen: seq<int>)
    requires Showing(v) && room > 0 && |seen| == SUPPORTED_GAME_FORMATS && AllFollow(v, room, seen)
    ensures var k := Keys(v, room, pad);
            var w := Frame(v, room, pad);
            && w.active == k.active
            && Base(w.lists[w.active]) == Base(k.lists[k.active])
            && w.lists[w.active].onScreen == k.lists[k.active].onScreen
            && (Recalculates(pad) && !Slipped(seen[w.active], w.lists[w.active], room)
                ==> InStep(w.lists[w.active], room))
            && (!(Recalculates(pad) && Slipped(seen[w.active], w.lists[w.active], room))
                ==> AllFollow(w, room, NextSeen(seen, w, pad)))
  {
    var k := Keys(v, room, pad);
    KeysFollow(v, room, pad, seen);
    RecalculateFollows(k.lists[k.active], room, seen[k.active]);
    hide Follows, Keys;
  }

  /** The run `pads` has no slip. */
  predicate NoSlip(s: Screen, room: nat, pads: seq<Pad>)
    requires Showing(s) && room > 0
  {
    forall k :: 0 < k <= |pads| ==> !Slips(s, room, pads[..k])
  }

  lemma {:induction false} RunFollows(s: Screen, room: nat, pads: seq<Pad>)
    requires AllLoaded(s) && room > 0 && NoSlip(s, room, pads)
    ensures AllFollow(After(s, room, pads), room, Seen(s, room, pads))
    ensures pads != [] && Recalculates(pads[|pads| - 1]) ==>
              var v := After(s, room, pads); InStep(v.lists[v.active], room)
  {
    if pads == [] {
      NothingPressed(s, room);
    } else {
      hide AllFollow, Frame, InStep, Loaded, NextSeen, Slipped;
      var init := pads[..|pads| - 1];
      NoSlipBefore(s, room, pads, |init|);
      RunFollows(s, room, init);
      assert pads[..|pads|] == pads;
      FrameFollows(After(s, room, init), room, pads[|pads| - 1], Seen(s, room, init));
    }
  }

  lemma NothingPressed(s: Screen, room: nat)
    requires AllLoaded(s) && room > 0
    ensures AllFollow(After(s, room, []), room, Seen(s, room, []))
  {
    forall i | 0 <= i < SUPPORTED_GAME_FORMATS && s.lists[i].nGames > 0
      ensures Follows(s.lists[i], room, Seen(s, room, [])[i])
    {
      LoadedFollows(s.lists[i], room);
    }
  }

  lemma NoSlipBefore(s: Screen, room: nat, pads: seq<Pad>, n: nat)
    requires Showing(s) && room > 0 && n <= |pads| && NoSlip(s, room, pads)
    ensures NoSlip(s, room, pads[..n])
  {
    forall k | 0 < k <= n
      ensures !Slips(s, room, pads[..n][..k])
    {
      assert pads[..n][..k] == pads[..k];
    }
  }

  /** A frame in which at most the cursor moves. */
  predicate CursorOnly(pad: Pad) { !pad.left && !pad.right && !pad.start }

  /** If the last frame of `pads` draws, it draws the list aligned, and so does one more frame in which
      at most the cursor moves. */
  ghost predicate DrawnAligned(s: Screen, room: nat, pads: seq<Pad>)
    requires Showing(s) && room > 0 && pads != []
  {
    Recalculates(pads[|pads| - 1]) ==>
      Shows(s, room, pads) && forall key :: CursorOnly(key) ==> Shows(s, room, pads + [key])
  }

  /** The list on show after one more frame of cursor keys. */
  lemma OneMore(s: Screen, room: nat, pads: seq<Pad>, key: Pad)
    requires Showing(s) && room > 0 && CursorOnly(key)
    ensures var v := After(s, room, pads);
            var w := After(s, room, pads + [key]);
            w.lists[w.active] == Recalculate(MoveCursor(v.lists[v.active], room, key), room)
  {
    assert (pads + [key])[..|pads|] == pads;
    hide Recalculate, MoveCursor;
  }

  /** The main theorem, for any run that starts on freshly loaded lists, with starts that fail and
      changes of list wherever they come: what it draws is aligned exactly when no frame slips. */
  lemma AlignedExactlyWhen(s: Screen, room: nat, pads: seq<Pad>)
    requires AllLoaded(s) && room > 0
    ensures (forall k :: 0 < k <= |pads| ==> DrawnAligned(s, room, pads[..k])) <==> NoSlip(s, room, pads)
  {
    hide Slips, DrawnAligned;
    assert pads[..|pads|] == pads;
    if NoSlip(s, room, pads) {
      forall k | 0 < k <= |pads|
        ensures DrawnAligned(s, room, pads[..k])
      {
        NoSlipBefore(s, room, pads, k);
        NoSlipIsAligned(s, room, pads[..k]);
      }
    } else {
      var k := FirstSlip(s, room, pads, |pads|);
      assert pads[..k][..k - 1] == pads[..k - 1];
      SlipIsSeen(s, room, pads[..k]);
    }
  }

  lemma NoSlipIsAligned(s: Screen, room: nat, pads: seq<Pad>)
    requires AllLoaded(s) && room > 0 && pads != [] && NoSlip(s, room, pads)
    ensures DrawnAligned(s, room, pads)
  {
    if Recalculates(pads[|pads| - 1]) {
      hide InStep, Aligned, Recalculate, MoveCursor, After, NoSlip;
      var v := After(s, room, pads);
      RunFollows(s, room, pads);
      InStepIsAligned(v.lists[v.active], room);
      forall key | CursorOnly(key)
        ensures Shows(s, room, pads + [key])
      {
        OneMore(s, room, pads, key);
        FrameKeepsStep(v.lists[v.active], room, key);
        InStepIsAligned(Recalculate(MoveCursor(v.lists[v.active], room, key), room), room);
      }
    }
  }

  lemma {:induction false} FirstSlip(s: Screen, room: nat, pads: seq<Pad>, n: nat) returns (k: nat)
    requires Showing(s) && room > 0 && 0 < n <= |pads| && !NoSlip(s, room, pads[..n])
    ensures 0 < k <= n && Slips(s, room, pads[..k]) && NoSlip(s, room, pads[..k - 1])
  {
    hide Slips, NoSlip, Showing;
    NoSlipStep(s, room, pads, n);
    k := n;
    if !NoSlip(s, room, pads[..n - 1]) { k := FirstSlip(s, room, pads, n - 1); }
  }

  lemma NoSlipStep(s: Screen, room: nat, pads: seq<Pad>, n: nat)
    requires Showing(s) && room > 0 && 0 < n <= |pads|
    ensures NoSlip(s, room, pads[..n]) <==> NoSlip(s, room, pads[..n - 1]) && !Slips(s, room, pads[..n])
    ensures NoSlip(s, room, pads[..0])
  {
    hide Slips;
    assert pads[..n][..n] == pads[..n] && pads[..n][..n - 1] == pads[..n - 1];
    if NoSlip(s, room, pads[..n]) {
      NoSlipBefore(s, room, pads[..n], n - 1);
    } else if NoSlip(s, room, pads[..n - 1]) {
      var j :| 0 < j <= n && Slips(s, room, pads[..n][..j]);
      assert pads[..n][..j] == pads[..j];
      assert pads[..n - 1][..if j < n then j else 0] == pads[..if j < n then j else 0];
    }
  }

  lemma SlipIsSeen(s: Screen, room: nat, pads: seq<Pad>)
    requires AllLoaded(s) && room > 0 && pads != []
    requires Slips(s, room, pads) && NoSlip(s, room, pads[..|pads| - 1])
    ensures !DrawnAligned(s, room, pads)
  {
    var init, pad := pads[..|pads| - 1], pads[|pads| - 1];
    var v, seen := After(s, room, init), Seen(s, room, init);
    var k := Keys(v, room, pad);
    RunFollows(s, room, init);
    KeysFollow(v, room, pad, seen);
    SlipShows(k.lists[k.active], room, seen[k.active]);
    var key := if k.lists[k.active].onScreen == 0 then DownKey() else UpKey();
    OneMore(s, room, pads, key);
    hide Follows, Aligned, MoveCursor, Keys, NoSlip, AllLoaded;
    assert CursorOnly(key);
  }

  /* ---- Without failed starts only the first frame matters ---- */

  /** What such a run keeps: the list on show is in step, and every other list with games will be once
      the recalculation has seen it. */
  predicate AllInStep(s: Screen, room: nat)
    requires room > 0
  {
    && Showing(s) && InStep(s.lists[s.active], room)
    && forall i :: 0 <= i < SUPPORTED_GAME_FORMATS && s.lists[i].nGames > 0 ==>
         InStep(Recalculate(s.lists[i], room), room)
  }

  lemma RecalculateTwice(l: GameList, room: nat)
    requires room > 0
    ensures Recalculate(Recalculate(l, room), room) == Recalculate(l, room)
  {
  }

  lemma {:induction false} AllStayInStep(s: Screen, room: nat, pad: Pad)
    requires room > 0 && AllInStep(s, room) && Recalculates(pad)
    ensures AllInStep(Frame(s, room, pad), room)
  {
    FrameKeepsStep(s.lists[s.active], room, pad);
    var k := Keys(s, room, pad);
    RecalculateTwice(k.lists[k.active], room);
    hide InStep, Recalculate, MoveCursor, Switched;
  }

  lemma FirstFrameInStep(s: Screen, room: nat, pad: Pad)
    requires AllLoaded(s) && room > 0 && Recalculates(pad) && !FirstFrameSlips(s.lists[s.active], room, pad)
    ensures AllInStep(Frame(s, room, pad), room)
  {
    FirstFrame(s.lists[s.active], room, pad);
    var idle := Pad(false, false, false, false, false, false);
    forall i | 0 <= i < SUPPORTED_GAME_FORMATS && s.lists[i].nGames > 0
      ensures InStep(Recalculate(s.lists[i], room), room)
    {
      FirstFrame(s.lists[i], room, idle);
    }
    var k := Keys(s, room, pad);
    RecalculateTwice(k.lists[k.active], room);
    hide InStep, Recalculate, MoveCursor, Switched, Loaded, FirstFrameSlips;
  }

  /** No frame of `pads` starts a game. */
  predicate NoStarts(pads: seq<Pad>) { forall i :: 0 <= i < |pads| ==> Recalculates(pads[i]) }

  lemma {:induction false} RunStaysInStep(s: Screen, room: nat, first: Pad, rest: seq<Pad>)
    requires AllLoaded(s) && room > 0 && Recalculates(first) && NoStarts(rest)
    requires !FirstFrameSlips(s.lists[s.active], room, first)
    ensures AllInStep(After(s, room, [first] + rest), room)
  {
    hide InStep, Recalculate, Frame, FirstFrameSlips, Loaded;
    var pads := [first] + rest;
    if rest == [] {
      assert pads[..0] == [];
      FirstFrameInStep(s, room, first);
    } else {
      var init := rest[..|rest| - 1];
      assert pads[..|pads| - 1] == [first] + init;
      RunStaysInStep(s, room, first, init);
      AllStayInStep(After(s, room, [first] + init), room, pads[|pads| - 1]);
    }
  }

  lemma {:induction false} AfterAppend(s: Screen, room: nat, before: seq<Pad>, pads: seq<Pad>)
    requires Showing(s) && room > 0
    ensures After(s, room, before + pads) == After(After(s, room, before), room, pads)
  {
    if pads == [] {
      assert before + pads == before;
    } else {
      assert (before + pads)[..|before + pads| - 1] == before + pads[..|pads| - 1];
      AfterAppend(s, room, before, pads[..|pads| - 1]);
      hide Frame;
    }
  }

  function SideKey(right: bool): Pad { Pad(false, false, !right, right, false, false) }

  /** LEFT or RIGHT, pressed often enough, brings any list with games on show, with its cursor as it was. */
  lemma {:induction false} Reached(v: Screen, room: nat, target: nat) returns (rest: seq<Pad>)
    requires Showing(v) && room > 0 && target < SUPPORTED_GAME_FORMATS && v.lists[target].nGames > 0
    requires target != v.active
    ensures NoStarts(rest)
    ensures var w := After(v, room, rest);
            w.active == target && w.lists[target] == Recalculate(v.lists[target], room)
    decreases if target > v.active then target - v.active else v.active - target
  {
    hide Recalculate, MoveCursor, Search, After;
    var right := target > v.active;
    var key := SideKey(right);
    SearchFinds(v.lists, if right then v.active + 1 else v.active - 1, right, SUPPORTED_GAME_FORMATS);
    var w := Frame(v, room, key);
    StandsStill(v, room, key);
    OneFrameAfter(v, room, key);
    if w.active == target {
      rest := [key];
    } else {
      var more := Reached(w, room, target);
      rest := [key] + more;
      AfterAppend(v, room, [key], more);
    }
  }

  lemma StandsStill(v: Screen, room: nat, key: Pad)
    requires Showing(v) && room > 0 && !key.ready && Recalculates(key)
    ensures var active := Switched(v.lists, v.active, key);
            && active < SUPPORTED_GAME_FORMATS
            && Frame(v, room, key) == Screen(v.lists[active := Recalculate(v.lists[active], room)], active)
  {
    hide Recalculate, Switched;
    assert v.lists[v.active := v.lists[v.active]] == v.lists;
    StillFound(v.lists, v.active, key);
  }

  lemma OneFrameAfter(v: Screen, room: nat, pad: Pad)
    requires Showing(v) && room > 0
    ensures After(v, room, [pad]) == Frame(v, room, pad)
  {
    hide Frame;
    assert [pad][..0] == [];
    assert After(v, room, []) == v;
  }

  /** From freshly loaded lists, whatever the first frame does and however long the run goes on without
      a failed start: every frame of every such run is drawn aligned exactly when the first frame is not
      DOWN on a list that does not fit. */
  lemma FirstFrameDecides(s: Screen, room: nat, first: Pad)
    requires AllLoaded(s) && room > 0 && Recalculates(first)
    ensures (forall rest :: NoStarts(rest) ==> Shows(s, room, [first] + rest))
            <==> !FirstFrameSlips(s.lists[s.active], room, first)
  {
    hide FirstFrameSlips, Aligned, Loaded, After, InStep;
    if FirstFrameSlips(s.lists[s.active], room, first) {
      var rest := SlipIsReached(s, room, first);
      assert !Shows(s, room, [first] + rest);
    } else {
      forall rest | NoStarts(rest)
        ensures Shows(s, room, [first] + rest)
      {
        RunStaysInStep(s, room, first, rest);
        var v := After(s, room, [first] + rest);
        InStepIsAligned(v.lists[v.active], room);
      }
    }
  }

  lemma SlipIsReached(s: Screen, room: nat, first: Pad) returns (rest: seq<Pad>)
    requires AllLoaded(s) && room > 0 && Recalculates(first) && FirstFrameSlips(s.lists[s.active], room, first)
    ensures NoStarts(rest) && !Shows(s, room, [first] + rest)
  {
    var v := Frame(s, room, first);
    FirstFrame(s.lists[s.active], room, first);
    OneFrameAfter(s, room, first);
    hide FirstFrameSlips, After, MoveCursor, Recalculate, Switched, InStep, Loaded, ListBase;
    if v.active == s.active {
      rest := [];
      assert [first] + rest == [first];
    } else {
      rest := Reached(v, room, s.active);
      AfterAppend(s, room, [first], rest);
    }
  }

  /* ---- The main loop's state ---- */

  class Menu {
    const room: nat                   // nGamesToList of the skin
    const lists: array<GameList>
    var active: nat                   // CurrentlySelectedGameListType
    var maxDisplayed: nat

    ghost predicate Valid()
      reads this, lists
    {
      room > 0 && lists.Length == SUPPORTED_GAME_FORMATS
    }

    ghost function View(): Screen
      reads this, lists
    {
      Screen(lists[..], active)
    }

    constructor (room: nat, lists: array<GameList>)
      requires room > 0 && lists.Length == SUPPORTED_GAME_FORMATS
      ensures Valid() && this.room == room && this.lists == lists && active == SYSTEM_INVALID
    {
      this.room, this.lists, active, maxDisplayed := room, lists, SYSTEM_INVALID, 0;
    }

    /** `SwapDisplayedGameList` */
    method SwapDisplayedGameList(current: nat, direction: bool) returns (r: nat)
      requires Valid() && (current < SUPPORTED_GAME_FORMATS || current == SYSTEM_INVALID)
      modifies this`maxDisplayed
      ensures Valid()
      ensures r == Search(lists[..], if current == SYSTEM_INVALID then 0 else current, direction,
                          SUPPORTED_GAME_FORMATS)
      ensures maxDisplayed == if r == SYSTEM_INVALID then 0
                              else if lists[r].nGames > room then room else lists[r].nGames
    {
      var c: nat, i: nat := if current == SYSTEM_INVALID then 0 else current, 0;
      ghost var start := c;
      while i < SUPPORTED_GAME_FORMATS
        invariant 0 <= i <= SUPPORTED_GAME_FORMATS && c < SUPPORTED_GAME_FORMATS
        invariant Search(lists[..], start, direction, SUPPORTED_GAME_FORMATS)
               == Search(lists[..], c, direction, SUPPORTED_GAME_FORMATS - i)
      {
        if lists[c].nGames > 0 {
          maxDisplayed := if lists[c].nGames > room then room else lists[c].nGames;
          return c;
        }
        if direction {
          c := c + 1;
          if c >= SUPPORTED_GAME_FORMATS { c := 0; }
        } else {
          if c == 0 { c := SUPPORTED_GAME_FORMATS - 1; } else { c := c - 1; }
        }
        i := i + 1;
      }
      maxDisplayed := 0;
      return SYSTEM_INVALID;
    }

    /** The UP and DOWN keys. */
    method CursorKeys(pad: Pad)
      requires Valid() && Showing(View())
      modifies lists
      ensures Showing(View())
      ensures lists[..] == old(lists[..])[active := MoveCursor(old(lists[active]), room, pad)]
    {
      var l := lists[active];
      if pad.ready {
        if pad.up {
          if l.inList > 0 {
            l := l.(inList := l.inList - 1);
            if l.onScreen > 0 { l := l.(onScreen := l.onScreen - 1); }
          } else {
            l := l.(inList := l.nGames - 1, onScreen := (if l.nGames > room then room else l.nGames) - 1);
          }
        } else if pad.down {
          if l.inList < l.nGames - 1 {
            l := l.(inList := l.inList + 1);
            if l.onScreen < room - 1 { l := l.(onScreen := l.onScreen + 1); }
          } else {
            l := l.(inList := 0, onScreen := 0);
          }
        }
      }
      lists[active] := l;
    }

    /** The LEFT and RIGHT keys. */
    method ListKeys(pad: Pad)
      requires Valid() && Showing(View())
      modifies this`active, this`maxDisplayed
      ensures Valid() && active == Switched(lists[..], old(active), pad) && Showing(View())
      ensures maxDisplayed == if !pad.left && !pad.right then old(maxDisplayed)
                              else if lists[active].nGames > room then room else lists[active].nGames
    {
      hide Search;
      StillFound(lists[..], active, pad);
      if pad.left {
        if active > 0 { active := active - 1; }
        active := SwapDisplayedGameList(active, false);
      } else if pad.right {
        if active < SUPPORTED_GAME_FORMATS - 1 { active := active + 1; }
        active := SwapDisplayedGameList(active, true);
      }
    }

    /** The bottom entry of the list on show. */
    method UpdateBottom()
      requires Valid() && Showing(View())
      modifies lists
      ensures lists[..] == old(lists[..])[active := Recalculate(old(lists[active]), room)]
    {
      var l := lists[active];
      if l.bottom > l.inList + room - 1 {
        lists[active] := l.(bottom := l.inList + room - 1);
      } else if l.bottom < l.inList {
        lists[active] := l.(bottom := l.inList);
      }
    }

    /** One turn of the main loop while a list is on show; `starting`: it leaves the loop to start the
        selected game, and `View()` is what it finds if that fails. */
    method OneFrame(pad: Pad) returns (starting: bool)
      requires Valid() && Showing(View())
      modifies this`active, this`maxDisplayed, lists
      ensures Valid() && View() == Frame(old(View()), room, pad)
      ensures starting <==> pad.start && !pad.left && !pad.right
      ensures maxDisplayed == if !pad.left && !pad.right then old(maxDisplayed)
                              else if lists[active].nGames > room then room else lists[active].nGames
    {
      hide Search, Switched, MoveCursor, Recalculate;
      CursorKeys(pad);
      ListKeys(pad);
      starting := !pad.left && !pad.right && pad.start;
      if !starting { UpdateBottom(); }
    }

    /** The range of titles `redrawGameListScreenBackground` draws. */
    method Redraw() returns (listBase: int, maxDisplayedTitles: nat)
      requires Valid() && Showing(View())
      ensures listBase == ListBase(lists[active], room)
      ensures maxDisplayedTitles == if lists[active].nGames > room then room else lists[active].nGames
      ensures InStep(lists[active], room) ==>
                var l := lists[active];
                listBase == l.inList - l.onScreen && 0 <= listBase && listBase + maxDisplayedTitles <= l.nGames
    {
      var l := lists[active];
      maxDisplayedTitles := if l.nGames > room then room else l.nGames;
      if l.onScreen == 0 {
        listBase := l.inList;
      } else if l.onScreen == room - 1 {
        listBase := l.inList - (room - 1);
      } else {
        listBase := l.bottom - (maxDisplayedTitles - 1);
      }
    }
  }
}
