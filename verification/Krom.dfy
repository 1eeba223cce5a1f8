/** Finding the glyph of a character in a FONTX font. */
module Krom {
  import opened Common

  /** A table entry: the codes start..end. */
  datatype Range = Range(start: nat, end: nat)

  datatype FontType = SingleByte | DoubleByte

  /** What the drawing code knows of a font: its header's type and tables, the size of one glyph and
      where the glyphs begin. */
  datatype Font = Font(fontType: FontType, blocks: seq<Range>, charsize: nat, offset: nat)

  /* ---- The specification: a glyph's slot is the rank of its code ---- */

  predicate In(r: Range, c: nat) { r.start <= c <= r.end }

  predicate Covered(blocks: seq<Range>, c: nat) { exists i :: 0 <= i < |blocks| && In(blocks[i], c) }

  /** How many codes below `c` have a glyph. */
  function Rank(blocks: seq<Range>, c: nat): nat {
    if c == 0 then 0 else Rank(blocks, c - 1) + (if Covered(blocks, c - 1) then 1 else 0)
  }

  function Total(blocks: seq<Range>): int {
    if blocks == [] then 0 else blocks[0].end - blocks[0].start + 1 + Total(blocks[1..])
  }

  /** The tables are in order and do not overlap. */
  predicate Ascending(blocks: seq<Range>) {
    && (forall i :: 0 <= i < |blocks| ==> blocks[i].start <= blocks[i].end)
    && (forall i, j :: 0 <= i < j < |blocks| ==> blocks[i].end < blocks[j].start)
  }

  /* ---- What the code computes ---- */

  /** The slot in a font with these tables, None for its null result: the first table with the code
      counts, and every table before it, each by its width. */
  function Slot(blocks: seq<Range>, c: nat): Option<int> {
    if blocks == [] then None
    else if In(blocks[0], c) then Some(c - blocks[0].start)
    else match Slot(blocks[1..], c)
      case None => None
      case Some(s) => Some(blocks[0].end - blocks[0].start + 1 + s)
  }

  /** The sum of the differences end - start of the tables before a table. */
  function Widths(blocks: seq<Range>, n: nat): int
    requires n <= |blocks|
  {
    if n == 0 then 0 else Widths(blocks, n - 1) + (blocks[n - 1].end - blocks[n - 1].start)
  }

  /** `get_fontx_char`, as an offset into the font's memory. */
  method GetFontxChar(font: Font, character: nat) returns (offset: Option<int>)
    ensures if font.fontType == SingleByte && character <= 0xFF then
              offset == Some(font.offset + character * font.charsize)
            else match Slot(font.blocks, character)
              case None => offset == None
              case Some(slot) => offset == Some(font.offset + slot * font.charsize)
    ensures Ascending(font.blocks) && !(font.fontType == SingleByte && character <= 0xFF) ==>
              offset == if Covered(font.blocks, character)
                        then Some(font.offset + Rank(font.blocks, character) * font.charsize) else None
  {
    hide Ascending, Rank, Slot, Covered;
    RankedSlot(font.blocks, character);
    if font.fontType == SingleByte && character <= 0xFF {
      return Some(font.offset + character * font.charsize);
    }
    var table, tableOffset := -1, 0;
    var i := 0;
    while i < |font.blocks|
      invariant 0 <= i <= |font.blocks| && table == -1
      invariant forall j :: 0 <= j < i ==> !In(font.blocks[j], character)
    {
      if font.blocks[i].start <= character && font.blocks[i].end >= character {
        table := i;
        break;
      }
      i := i + 1;
    }
    if table < 0 {
      NoTable(font.blocks, character);
      return None;
    }
    i := 0;
    while i < table
      invariant 0 <= i <= table < |font.blocks|
      invariant tableOffset == Widths(font.blocks, i)
    {
      tableOffset := tableOffset + (font.blocks[i].end - font.blocks[i].start);
      i := i + 1;
    }
    tableOffset := tableOffset + table + (character - font.blocks[table].start);
    SlotOfTable(font.blocks, character, table);
    assert Slot(font.blocks, character) == Some(tableOffset);
    hide Widths, In;
    return Some(font.offset + tableOffset * font.charsize);
  }

  lemma RankedSlot(blocks: seq<Range>, c: nat)
    ensures Ascending(blocks) ==> Slot(blocks, c) == if Covered(blocks, c) then Some(Rank(blocks, c)) else None
  {
    if Ascending(blocks) { SlotIsRank(blocks, c); }
  }

  lemma {:induction false} NoSlot(blocks: seq<Range>, c: nat)
    ensures Slot(blocks, c) == None <==> !Covered(blocks, c)
  {
    if blocks != [] {
      NoSlot(blocks[1..], c);
      if Covered(blocks, c) && !In(blocks[0], c) {
        var i :| 0 <= i < |blocks| && In(blocks[i], c);
        assert In(blocks[1..][i - 1], c);
      }
    }
  }

  lemma NoTable(blocks: seq<Range>, c: nat)
    requires forall j :: 0 <= j < |blocks| ==> !In(blocks[j], c)
    ensures Slot(blocks, c) == None
  {
    NoSlot(blocks, c);
  }

  lemma {:induction false} SlotOfTable(blocks: seq<Range>, c: nat, table: nat)
    requires table < |blocks| && In(blocks[table], c)
    requires forall j :: 0 <= j < table ==> !In(blocks[j], c)
    ensures Slot(blocks, c) == Some(Widths(blocks, table) + table + (c - blocks[table].start))
    decreases table
  {
    if table > 0 {
      SlotOfTable(blocks[1..], c, table - 1);
      WidthsShift(blocks, table);
    }
  }

  lemma {:induction false} WidthsShift(blocks: seq<Range>, n: nat)
    requires 0 < n <= |blocks|
    ensures Widths(blocks, n) == blocks[0].end - blocks[0].start + Widths(blocks[1..], n - 1)
  {
    if n > 1 {
      WidthsShift(blocks, n - 1);
    }
  }

  /* ---- The slot is the rank ---- */

  /** How many codes below `c` lie in each table, added up. */
  function Below(blocks: seq<Range>, c: nat): int {
    if blocks == [] then 0
    else
      var r := blocks[0];
      (if c <= r.start then 0 else if c <= r.end then c - r.start else r.end - r.start + 1) + Below(blocks[1..], c)
  }

  lemma TailAscending(blocks: seq<Range>)
    requires Ascending(blocks) && blocks != []
    ensures Ascending(blocks[1..])
    ensures forall c :: In(blocks[0], c) ==> !Covered(blocks[1..], c)
  {
  }

  lemma {:induction false} BelowStep(blocks: seq<Range>, c: nat)
    requires Ascending(blocks)
    ensures Below(blocks, c + 1) == Below(blocks, c) + (if Covered(blocks, c) then 1 else 0)
  {
    if blocks != [] {
      TailAscending(blocks);
      BelowStep(blocks[1..], c);
      assert Covered(blocks, c) <==> In(blocks[0], c) || Covered(blocks[1..], c) by { CoveredSplits(blocks, c); }
    }
  }

  lemma CoveredSplits(blocks: seq<Range>, c: nat)
    requires blocks != []
    ensures Covered(blocks, c) <==> In(blocks[0], c) || Covered(blocks[1..], c)
  {
    if i :| 0 <= i < |blocks| && In(blocks[i], c) {
      assert i > 0 ==> In(blocks[1..][i - 1], c);
    }
    if i :| 0 <= i < |blocks[1..]| && In(blocks[1..][i], c) {
      assert In(blocks[i + 1], c);
    }
  }

  lemma {:induction false} RankIsBelow(blocks: seq<Range>, c: nat)
    requires Ascending(blocks)
    ensures Rank(blocks, c) == Below(blocks, c)
  {
    if c == 0 {
      NoneBelowZero(blocks);
    } else {
      RankIsBelow(blocks, c - 1);
      BelowStep(blocks, c - 1);
    }
  }

  lemma {:induction false} NoneBelowZero(blocks: seq<Range>)
    ensures Below(blocks, 0) == 0
  {
    if blocks != [] {
      NoneBelowZero(blocks[1..]);
    }
  }

  lemma {:induction false} NoneBelowFirst(blocks: seq<Range>, c: nat)
    requires forall i :: 0 <= i < |blocks| ==> c <= blocks[i].start
    ensures Below(blocks, c) == 0
  {
    if blocks != [] {
      NoneBelowFirst(blocks[1..], c);
    }
  }

  lemma {:induction false} SlotIsBelow(blocks: seq<Range>, c: nat)
    requires Ascending(blocks) && Covered(blocks, c)
    ensures Slot(blocks, c) == Some(Below(blocks, c))
  {
    assert blocks != [];
    hide Ascending, Covered;
    CoveredSplits(blocks, c);
    if In(blocks[0], c) {
      RestIsAbove(blocks, c);
      NoneBelowFirst(blocks[1..], c);
    } else {
      BehindFirst(blocks, c);
      SlotIsBelow(blocks[1..], c);
    }
  }

  lemma RestIsAbove(blocks: seq<Range>, c: nat)
    requires Ascending(blocks) && blocks != [] && In(blocks[0], c)
    ensures forall i :: 0 <= i < |blocks[1..]| ==> c <= blocks[1..][i].start
  {
  }

  lemma BehindFirst(blocks: seq<Range>, c: nat)
    requires Ascending(blocks) && blocks != [] && Covered(blocks[1..], c)
    ensures blocks[0].start <= blocks[0].end < c && Ascending(blocks[1..])
  {
    TailAscending(blocks);
    var i :| 0 <= i < |blocks[1..]| && In(blocks[1..][i], c);
    assert blocks[0].end < blocks[i + 1].start;
  }

  /** The main theorem: a code has a glyph exactly when a table has it, and then its slot is the
      number of codes below it that have glyphs. */
  lemma SlotIsRank(blocks: seq<Range>, c: nat)
    requires Ascending(blocks)
    ensures Slot(blocks, c) == if Covered(blocks, c) then Some(Rank(blocks, c)) else None
  {
    NoSlot(blocks, c);
    if Covered(blocks, c) {
      SlotIsBelow(blocks, c);
      RankIsBelow(blocks, c);
    }
  }

  /** So slots increase with the code ... */
  lemma {:induction false} SlotsIncrease(blocks: seq<Range>, c: nat, d: nat)
    requires Ascending(blocks) && c < d && Covered(blocks, c) && Covered(blocks, d)
    ensures Slot(blocks, c).Some? && Slot(blocks, d).Some? && Slot(blocks, c).value < Slot(blocks, d).value
  {
    SlotIsRank(blocks, c);
    SlotIsRank(blocks, d);
    RankGrows(blocks, c, d);
  }

  lemma {:induction false} RankGrows(blocks: seq<Range>, c: nat, d: nat)
    requires c < d && Covered(blocks, c)
    ensures Rank(blocks, c) < Rank(blocks, d)
    decreases d
  {
    if c < d - 1 {
      RankGrows(blocks, c, d - 1);
    }
  }

  /** ... are less than the number of codes ... */
  lemma {:induction false} SlotBelowTotal(blocks: seq<Range>, c: nat)
    requires Ascending(blocks) && Covered(blocks, c)
    ensures Slot(blocks, c).Some? && 0 <= Slot(blocks, c).value < Total(blocks)
  {
    CoveredSplits(blocks, c);
    TailAscending(blocks);
    NoSlot(blocks[1..], c);
    TotalNonNegative(blocks[1..]);
    if !In(blocks[0], c) {
      SlotBelowTotal(blocks[1..], c);
    }
  }

  lemma {:induction false} TotalNonNegative(blocks: seq<Range>)
    requires Ascending(blocks)
    ensures Total(blocks) >= 0
  {
    if blocks != [] {
      TotalNonNegative(blocks[1..]);
    }
  }

  /** ... and leave none unused. */
  lemma {:induction false} EverySlotUsed(blocks: seq<Range>, slot: nat) returns (c: nat)
    requires Ascending(blocks) && slot < Total(blocks)
    ensures Covered(blocks, c) && Slot(blocks, c) == Some(slot)
  {
    TailAscending(blocks);
    var first := blocks[0];
    var n := first.end - first.start + 1;
    if slot < n {
      c := first.start + slot;
      assert In(blocks[0], c);
    } else {
      c := EverySlotUsed(blocks[1..], slot - n);
      CoveredSplits(blocks, c);
    }
  }

  /* ---- The shipped tables ---- */

  const SYMBOLS: seq<Range> :=
    [Range(0x8140, 0x817e), Range(0x8180, 0x81ac), Range(0x81b8, 0x81bf), Range(0x81c8, 0x81ce),
     Range(0x81da, 0x81e8), Range(0x81f0, 0x81f7), Range(0x81fc, 0x81fc), Range(0x824f, 0x8258),
     Range(0x8260, 0x8279), Range(0x8281, 0x829a)]

  const LETTERS: seq<Range> :=
    [Range(0x829f, 0x82f1), Range(0x8340, 0x837e), Range(0x8380, 0x8396), Range(0x839f, 0x83b6),
     Range(0x83bf, 0x83d6), Range(0x8440, 0x8460), Range(0x8470, 0x847e), Range(0x8480, 0x8491),
     Range(0x849f, 0x84be)]

  const KANJI_88: seq<Range> :=
    [Range(0x889f, 0x88fc), Range(0x8940, 0x897e), Range(0x8980, 0x89fc), Range(0x8a40, 0x8a7e),
     Range(0x8a80, 0x8afc), Range(0x8b40, 0x8b7e), Range(0x8b80, 0x8bfc), Range(0x8c40, 0x8c7e)]

  const KANJI_8C: seq<Range> :=
    [Range(0x8c80, 0x8cfc), Range(0x8d40, 0x8d7e), Range(0x8d80, 0x8dfc), Range(0x8e40, 0x8e7e),
     Range(0x8e80, 0x8efc), Range(0x8f40, 0x8f7e), Range(0x8f80, 0x8ffc), Range(0x9040, 0x907e)]

  const KANJI_90: seq<Range> :=
    [Range(0x9080, 0x90fc), Range(0x9140, 0x917e), Range(0x9180, 0x91fc), Range(0x9240, 0x927e),
     Range(0x9280, 0x92fc), Range(0x9340, 0x937e), Range(0x9380, 0x93fc), Range(0x9440, 0x947e)]

  const KANJI_94: seq<Range> :=
    [Range(0x9480, 0x94fc), Range(0x9540, 0x957e), Range(0x9580, 0x95fc), Range(0x9640, 0x967e),
     Range(0x9680, 0x96fc), Range(0x9740, 0x977e), Range(0x9780, 0x97fc), Range(0x9840, 0x9872)]

  /** `sjis_table` */
  const SJIS_TABLE: seq<Range> := SYMBOLS + (LETTERS + (KANJI_88 + (KANJI_8C + (KANJI_90 + KANJI_94))))

  const TABLE_NUM := 51
  const HEADER_SIZE := 18
  const TABLE_SIZE := 4
  const CHAR_SIZE := 30
  const CHAR_NUM := 3489

  /** The bytes `load_krom_double` allocates. */
  const FONT_BYTES := HEADER_SIZE + TABLE_NUM * TABLE_SIZE + CHAR_NUM * CHAR_SIZE

  /** What `load_fontx` works out for that font, from its width, height and number of tables. */
  const KROM_KANJI := Font(DoubleByte, SJIS_TABLE, (16 + 7) / 8 * 15, 18 + TABLE_NUM * 4)

  lemma {:induction false} TotalSplits(a: seq<Range>, b: seq<Range>)
    ensures Total(a + b) == Total(a) + Total(b)
  {
    if a == [] {
      assert a + b == b;
    } else {
      assert (a + b)[1..] == a[1..] + b;
      TotalSplits(a[1..], b);
    }
  }

  lemma AscendingJoins(a: seq<Range>, b: seq<Range>)
    requires Ascending(a) && Ascending(b) && a != [] && b != [] && a[|a| - 1].end < b[0].start
    ensures Ascending(a + b)
  {
    forall i, j | 0 <= i < |a| && 0 <= j < |b|
      ensures a[i].end < b[j].start
    {
      assert i < |a| - 1 ==> a[i].end < a[|a| - 1].start <= a[|a| - 1].end;
      assert j > 0 ==> b[0].start <= b[0].end < b[j].start;
    }
  }

  lemma SymbolsInOrder()
    ensures Ascending(SYMBOLS)
  {
  }

  lemma SymbolsCounted()
    ensures Total(SYMBOLS) == 209
  {
  }

  lemma LettersInOrder()
    ensures Ascending(LETTERS)
  {
  }

  lemma LettersCounted()
    ensures Total(LETTERS) == 315
  {
  }

  lemma Kanji88InOrder()
    ensures Ascending(KANJI_88)
  {
  }

  lemma Kanji88Counted()
    ensures Total(KANJI_88) == 721
  {
  }

  lemma Kanji8CInOrder()
    ensures Ascending(KANJI_8C)
  {
  }

  lemma Kanji8CCounted()
    ensures Total(KANJI_8C) == 752
  {
  }

  lemma Kanji90InOrder()
    ensures Ascending(KANJI_90)
  {
  }

  lemma Kanji90Counted()
    ensures Total(KANJI_90) == 752
  {
  }

  lemma Kanji94InOrder()
    ensures Ascending(KANJI_94)
  {
  }

  lemma Kanji94Counted()
    ensures Total(KANJI_94) == 740
  {
  }

  lemma TableInOrder()
    ensures Ascending(SJIS_TABLE) && |SJIS_TABLE| == TABLE_NUM && Total(SJIS_TABLE) == CHAR_NUM
  {
    hide Ascending, Total;
    SymbolsInOrder();
    SymbolsCounted();
    LettersInOrder();
    LettersCounted();
    Kanji88InOrder();
    Kanji88Counted();
    Kanji8CInOrder();
    Kanji8CCounted();
    Kanji90InOrder();
    Kanji90Counted();
    Kanji94InOrder();
    Kanji94Counted();
    var d := KANJI_90 + KANJI_94;
    AscendingJoins(KANJI_90, KANJI_94);
    TotalSplits(KANJI_90, KANJI_94);
    var c := KANJI_8C + d;
    AscendingJoins(KANJI_8C, d);
    TotalSplits(KANJI_8C, d);
    var b := KANJI_88 + c;
    AscendingJoins(KANJI_88, c);
    TotalSplits(KANJI_88, c);
    var a := LETTERS + b;
    AscendingJoins(LETTERS, b);
    TotalSplits(LETTERS, b);
    AscendingJoins(SYMBOLS, a);
    TotalSplits(SYMBOLS, a);
  }

  /* ---- Which characters they are ---- */

  /** Row and cell of a two-byte Shift-JIS code, two rows of 94 cells to a lead byte (JIS X 0208). */
  function Row(c: nat): int { 2 * (c / 256 - 0x81) + (if c % 256 >= 0x9f then 2 else 1) }

  function Cell(c: nat): int {
    var trail := c % 256;
    if trail >= 0x9f then trail - 0x9e else if trail >= 0x80 then trail - 0x40 else trail - 0x3f
  }

  predicate TrailByte(b: nat) { 0x40 <= b <= 0x7e || 0x80 <= b <= 0xfc }

  /** The cells of JIS X 0208 that hold a symbol, letter or kanji of the first level. */
  predicate Assigned(row: int, cell: int) {
    match row
    case 1 => 1 <= cell <= 94
    case 2 =>
      1 <= cell <= 14 || 26 <= cell <= 33 || 42 <= cell <= 48 || 60 <= cell <= 74 || 82 <= cell <= 89 || cell == 94
    case 3 => 16 <= cell <= 25 || 33 <= cell <= 58 || 65 <= cell <= 90
    case 4 => 1 <= cell <= 83
    case 5 => 1 <= cell <= 86
    case 6 => 1 <= cell <= 24 || 33 <= cell <= 56
    case 7 => 1 <= cell <= 33 || 49 <= cell <= 81
    case 8 => 1 <= cell <= 32
    case _ => (16 <= row <= 46 && 1 <= cell <= 94) || (row == 47 && 1 <= cell <= 51)
  }

  lemma CoveredJoins(a: seq<Range>, b: seq<Range>, c: nat)
    ensures Covered(a + b, c) <==> Covered(a, c) || Covered(b, c)
  {
    if i :| 0 <= i < |a| && In(a[i], c) { assert In((a + b)[i], c); }
    if i :| 0 <= i < |b| && In(b[i], c) { assert In((a + b)[|a| + i], c); }
  }

  predicate Has(blocks: seq<Range>, i: nat, c: nat) { i < |blocks| && In(blocks[i], c) }

  /** The ranges of a short table one by one. */
  lemma CoveredByFew(blocks: seq<Range>, c: nat)
    requires |blocks| <= 10
    ensures Covered(blocks, c) <==>
              || Has(blocks, 0, c) || Has(blocks, 1, c) || Has(blocks, 2, c) || Has(blocks, 3, c) || Has(blocks, 4, c)
              || Has(blocks, 5, c) || Has(blocks, 6, c) || Has(blocks, 7, c) || Has(blocks, 8, c) || Has(blocks, 9, c)
  {
    hide In;
  }

  /** The table from the kanji on, by lead and trail byte. */
  predicate KanjiCode(c: nat) { 0x889f <= c <= 0x9872 && TrailByte(c % 256) }

  lemma Kanji88Codes(c: nat)
    ensures Covered(KANJI_88, c) <==> KanjiCode(c) && c < 0x8c80
  {
    CoveredByFew(KANJI_88, c);
  }

  lemma Kanji8CCodes(c: nat)
    ensures Covered(KANJI_8C, c) <==> KanjiCode(c) && 0x8c80 <= c < 0x9080
  {
    CoveredByFew(KANJI_8C, c);
  }

  lemma Kanji90Codes(c: nat)
    ensures Covered(KANJI_90, c) <==> KanjiCode(c) && 0x9080 <= c < 0x9480
  {
    CoveredByFew(KANJI_90, c);
  }

  lemma Kanji94Codes(c: nat)
    ensures Covered(KANJI_94, c) <==> KanjiCode(c) && 0x9480 <= c
  {
    CoveredByFew(KANJI_94, c);
  }

  lemma SymbolCodes(c: nat)
    ensures Covered(SYMBOLS, c) <==> TrailByte(c % 256) && Row(c) <= 3 && Assigned(Row(c), Cell(c))
  {
    CoveredByFew(SYMBOLS, c);
    if c / 256 == 0x81 { } else { }
  }

  lemma LetterCodes(c: nat)
    ensures Covered(LETTERS, c) <==> TrailByte(c % 256) && 4 <= Row(c) <= 8 && Assigned(Row(c), Cell(c))
  {
    CoveredByFew(LETTERS, c);
    if c / 256 == 0x83 { } else { }
  }

  /** The kanji of the first level lie in rows 16 to 47, up to cell 51 of the last. */
  lemma KanjiRows(c: nat)
    ensures KanjiCode(c) <==> TrailByte(c % 256) && Row(c) > 8 && Assigned(Row(c), Cell(c))
  {
  }

  lemma TableParts(c: nat)
    ensures Covered(SJIS_TABLE, c) <==> Covered(SYMBOLS, c) || Covered(LETTERS, c) || KanjiCode(c)
  {
    hide Covered, KanjiCode;
    var d := KANJI_90 + KANJI_94;
    var b := KANJI_88 + (KANJI_8C + d);
    CoveredJoins(KANJI_90, KANJI_94, c);
    CoveredJoins(KANJI_8C, d, c);
    CoveredJoins(KANJI_88, KANJI_8C + d, c);
    CoveredJoins(LETTERS, b, c);
    CoveredJoins(SYMBOLS, LETTERS + b, c);
    Kanji88Codes(c);
    Kanji8CCodes(c);
    Kanji90Codes(c);
    Kanji94Codes(c);
  }

  /** The shipped font has a glyph for exactly the two-byte codes of the symbols, letters and first-level
      kanji of JIS X 0208. */
  lemma GlyphExactlyWhen(c: nat)
    ensures Covered(SJIS_TABLE, c) <==> TrailByte(c % 256) && Assigned(Row(c), Cell(c))
  {
    hide Covered, KanjiCode, Row, Cell, Assigned, TrailByte;
    TableParts(c);
    SymbolCodes(c);
    LetterCodes(c);
    KanjiRows(c);
  }

  /** From the first kanji on: every trail byte, up to the last kanji. */
  lemma KanjiExactlyWhen(c: nat)
    requires c >= 0x889f
    ensures Covered(SJIS_TABLE, c) <==> c <= 0x9872 && (0x40 <= c % 256 <= 0x7e || 0x80 <= c % 256 <= 0xfc)
  {
    hide Covered, Assigned;
    TableParts(c);
    SymbolCodes(c);
    LetterCodes(c);
  }

  lemma {:induction false} BelowJoins(a: seq<Range>, b: seq<Range>, c: nat)
    ensures Below(a + b, c) == Below(a, c) + Below(b, c)
  {
    if a == [] {
      assert a + b == b;
    } else {
      assert (a + b)[1..] == a[1..] + b;
      BelowJoins(a[1..], b, c);
    }
  }

  lemma {:induction false} AllBelow(blocks: seq<Range>, c: nat)
    requires forall i :: 0 <= i < |blocks| ==> blocks[i].start <= blocks[i].end < c
    ensures Below(blocks, c) == Total(blocks)
  {
    if blocks != [] {
      AllBelow(blocks[1..], c);
    }
  }

  /** Below the first code of the second part lies the first part. */
  lemma BelowSecond(a: seq<Range>, b: seq<Range>)
    requires Ascending(a + b) && b != []
    ensures Below(a + b, b[0].start) == Total(a)
  {
    hide Below, Total;
    var c := b[0].start;
    forall i | 0 <= i < |a|
      ensures a[i].start <= a[i].end < c
    {
      assert (a + b)[i] == a[i] && (a + b)[|a|] == b[0];
    }
    forall i | 0 <= i < |b|
      ensures c <= b[i].start
    {
      assert (a + b)[|a| + i] == b[i] && (a + b)[|a|] == b[0];
    }
    BelowJoins(a, b, c);
    AllBelow(a, c);
    NoneBelowFirst(b, c);
  }

  lemma KanjiStart()
    ensures Rank(SJIS_TABLE, 0x889f) == 524
  {
    hide Below, Total, Rank, Ascending;
    TableInOrder();
    RankIsBelow(SJIS_TABLE, 0x889f);
    var a, b := SYMBOLS + LETTERS, KANJI_88 + (KANJI_8C + (KANJI_90 + KANJI_94));
    assert SJIS_TABLE == a + b && b[0].start == 0x889f;
    BelowSecond(a, b);
    TotalSplits(SYMBOLS, LETTERS);
    SymbolsCounted();
    LettersCounted();
  }

  /** How many codes from 0x889f up to `c` have a trail byte: 188 for a lead byte. */
  function KanjiBefore(c: nat): int {
    var trail := c % 256;
    (c / 256 - 0x88) * 188 - 94
    + (if trail <= 0x40 then 0 else if trail <= 0x7f then trail - 0x40
       else if trail == 0x80 then 63 else if trail <= 0xfd then trail - 0x41 else 188)
  }

  lemma OneMoreKanji(c: nat)
    ensures KanjiBefore(c + 1) == KanjiBefore(c) + if TrailByte(c % 256) then 1 else 0
  {
    NextCode(c);
  }

  lemma NextCode(c: nat)
    ensures c % 256 < 255 ==> (c + 1) / 256 == c / 256 && (c + 1) % 256 == c % 256 + 1
    ensures c % 256 == 255 ==> (c + 1) / 256 == c / 256 + 1 && (c + 1) % 256 == 0
  {
  }

  lemma RankStep(blocks: seq<Range>, c: nat)
    ensures Rank(blocks, c + 1) == Rank(blocks, c) + if Covered(blocks, c) then 1 else 0
  {
    hide Covered;
  }

  lemma {:induction false} KanjiRank(c: nat)
    requires 0x889f <= c <= 0x9873
    ensures Rank(SJIS_TABLE, c) == 524 + KanjiBefore(c)
    decreases c
  {
    if c == 0x889f {
      KanjiStart();
    } else {
      hide Covered, KanjiBefore, Rank;
      RankStep(SJIS_TABLE, c - 1);
      KanjiRank(c - 1);
      KanjiExactlyWhen(c - 1);
      OneMoreKanji(c - 1);
    }
  }

  /** The glyph of a first-level kanji: behind the 524 symbols and letters, by row and cell. */
  lemma KanjiSlot(c: nat)
    requires 16 <= Row(c) <= 47 && TrailByte(c % 256) && Assigned(Row(c), Cell(c))
    ensures Slot(SJIS_TABLE, c) == Some(524 + 94 * (Row(c) - 16) + Cell(c) - 1)
  {
    hide Covered, Rank, Slot, Ascending, Total, Assigned, Row, Cell, TrailByte, KanjiBefore;
    KanjiRows(c);
    KanjiPlace(c);
    GlyphExactlyWhen(c);
    TableInOrder();
    SlotIsRank(SJIS_TABLE, c);
    KanjiRank(c);
  }

  lemma KanjiPlace(c: nat)
    requires KanjiCode(c)
    ensures KanjiBefore(c) == 94 * (Row(c) - 16) + Cell(c) - 1
  {
  }

  /** A glyph for exactly the assigned cells, that of a kanji at its place by row and cell. */
  predicate ShippedGlyph(c: nat, offset: Option<int>) {
    && (offset.Some? <==> TrailByte(c % 256) && Assigned(Row(c), Cell(c)))
    && (offset.Some? && Row(c) >= 16 ==> offset == Some(222 + (524 + 94 * (Row(c) - 16) + Cell(c) - 1) * 30))
  }

  /** That is what the search finds in the shipped font. */
  lemma ShippedGlyphs(c: nat)
    ensures KROM_KANJI.fontType == DoubleByte
    ensures ShippedGlyph(c, match Slot(KROM_KANJI.blocks, c)
                            case None => None
                            case Some(slot) => Some(KROM_KANJI.offset + slot * KROM_KANJI.charsize))
  {
    GlyphExactlyWhen(c);
    NoSlot(SJIS_TABLE, c);
    hide Covered, Slot;
    if TrailByte(c % 256) && 16 <= Row(c) <= 47 && Assigned(Row(c), Cell(c)) { KanjiSlot(c); }
  }

  /** Every glyph of the shipped font lies behind its tables and inside the allocated bytes, and the
      glyphs fill them. */
  lemma GlyphsFillTheFont(c: nat)
    requires Covered(SJIS_TABLE, c)
    ensures KROM_KANJI.charsize == CHAR_SIZE == 30
    ensures KROM_KANJI.offset == HEADER_SIZE + TABLE_NUM * TABLE_SIZE == 222
    ensures var slot := Slot(SJIS_TABLE, c);
            && slot.Some?
            && KROM_KANJI.offset <= KROM_KANJI.offset + slot.value * KROM_KANJI.charsize
            && KROM_KANJI.offset + slot.value * KROM_KANJI.charsize + CHAR_SIZE <= FONT_BYTES
    ensures FONT_BYTES == KROM_KANJI.offset + Total(SJIS_TABLE) * KROM_KANJI.charsize
  {
    hide Ascending, Total, Slot, Covered;
    TableInOrder();
    SlotBelowTotal(SJIS_TABLE, c);
  }
}
