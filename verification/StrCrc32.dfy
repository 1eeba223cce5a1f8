/** The checksum of a game title from which the loader makes the name of its image file: a CRC-32
    whose table is built with the test inverted and filled from the far end. */
module StrCrc32 {
  import opened Common
  import opened Words
  import opened CrcTheory

  /** The generator of section 3.2.9 of IEEE 802.3. */
  const POLYNOMIAL := Hex([0x0, 0x4, 0xC, 0x1, 0x1, 0xD, 0xB, 0x7])

  const NUL: Byte := [false, false, false, false, false, false, false, false]

  lemma PolynomialBits()
    ensures Polynomial(POLYNOMIAL) && |POLYNOMIAL| == 32
  {
    hide Hex;
    LastDigit([0x0, 0x4, 0xC, 0x1, 0x1, 0xD, 0xB, 0x7]);
  }

  /** Its terms, by their powers of x; the one in x^32 is left out. */
  lemma PolynomialTerms()
    ensures |POLYNOMIAL| == 32
    ensures forall i :: 0 <= i < 32 ==>
              (POLYNOMIAL[i] <==> 31 - i in {0, 1, 2, 4, 5, 7, 8, 10, 11, 12, 16, 22, 23, 26})
  {
    hide Hex, Nibble;
    PolynomialDigits();
    HexBits();
    var f, t := false, true;
    assert POLYNOMIAL[..8] == [f, f, f, f, f, t, f, f] && POLYNOMIAL[8..16] == [t, t, f, f, f, f, f, t];
    assert POLYNOMIAL[16..24] == [f, f, f, t, t, t, f, t] && POLYNOMIAL[24..] == [t, f, t, t, f, t, t, t];
  }

  lemma PolynomialDigits()
    ensures |POLYNOMIAL| == 32
    ensures POLYNOMIAL[..8] == Nibble(0x0) + Nibble(0x4) && POLYNOMIAL[8..16] == Nibble(0xC) + Nibble(0x1)
    ensures POLYNOMIAL[16..24] == Nibble(0x1) + Nibble(0xD) && POLYNOMIAL[24..] == Nibble(0xB) + Nibble(0x7)
  {
    hide Hex, Nibble;
    HexOfTwo([0x0, 0x4, 0xC, 0x1, 0x1, 0xD, 0xB, 0x7], [0xC, 0x1, 0x1, 0xD, 0xB, 0x7]);
    HexOfTwo([0xC, 0x1, 0x1, 0xD, 0xB, 0x7], [0x1, 0xD, 0xB, 0x7]);
    HexOfTwo([0x1, 0xD, 0xB, 0x7], [0xB, 0x7]);
    HexOfTwo([0xB, 0x7], []);
  }

  lemma HexOfTwo(digits: seq<nat>, rest: seq<nat>)
    requires |digits| >= 2 && rest == digits[2..]
    ensures Hex(digits)[..8] == Nibble(digits[0]) + Nibble(digits[1]) && Hex(digits)[8..] == Hex(rest)
  {
    hide Nibble;
    assert digits[1..][1..] == rest;
  }

  lemma HexBits()
    ensures var f, t := false, true;
            && Nibble(0x0) == [f, f, f, f] && Nibble(0x1) == [f, f, f, t] && Nibble(0x4) == [f, t, f, f]
            && Nibble(0x7) == [f, t, t, t] && Nibble(0xB) == [t, f, t, t] && Nibble(0xC) == [t, t, f, f]
            && Nibble(0xD) == [t, t, f, t]
  {
  }

  /* ---- The table ---- */

  /** The step the code takes: the polynomial goes in when the top bit is clear. */
  function InvertedShift(p: Word, c: Word): (r: Word)
    requires Polynomial(p) && |c| == |p|
    ensures |r| == |p|
  {
    if c[0] then Shl(c, 1) else Xor(Shl(c, 1), p)
  }

  function InvertedShiftN(p: Word, c: Word, n: nat): (r: Word)
    requires Polynomial(p) && |c| == |p|
    ensures |r| == |p|
    decreases n
  {
    if n == 0 then c else InvertedShiftN(p, InvertedShift(p, c), n - 1)
  }

  predicate Opposite(c: Word, d: Word, n: nat)
    requires |c| == |d| && n <= |c|
  {
    forall i :: 0 <= i < n ==> c[i] != d[i]
  }

  /** Inverted steps do to a word what ordinary steps do to a word with the opposite top bits. */
  lemma {:induction false} InvertedIsOpposite(p: Word, c: Word, d: Word, n: nat)
    requires Polynomial(p) && |c| == |d| == |p| && n <= |p| && Opposite(c, d, n)
    ensures InvertedShiftN(p, c, n) == Xor(ShiftN(p, d, n), Shl(Xor(c, d), n))
    decreases n
  {
    hide Xor, Shl, InvertedShift, Shift, Opposite;
    if n == 0 {
      NothingShifted(c, d);
    } else {
      OppositeStep(p, c, d, n);
      InvertedIsOpposite(p, InvertedShift(p, c), Shift(p, d), n - 1);
      ShlTwice(Xor(c, d), n);
    }
  }

  lemma NothingShifted(c: Word, d: Word)
    requires |c| == |d|
    ensures Xor(d, Shl(Xor(c, d), 0)) == c
  {
    assert Shl(Xor(c, d), 0) == Xor(c, d);
  }

  lemma ShlTwice(w: Word, n: nat)
    requires 0 < n <= |w|
    ensures Shl(Shl(w, 1), n - 1) == Shl(w, n)
  {
  }

  lemma OppositeStep(p: Word, c: Word, d: Word, n: nat)
    requires Polynomial(p) && |c| == |d| == |p| && 0 < n <= |p| && Opposite(c, d, n)
    ensures Opposite(InvertedShift(p, c), Shift(p, d), n - 1)
    ensures Xor(InvertedShift(p, c), Shift(p, d)) == Shl(Xor(c, d), 1)
  {
    var c', d' := InvertedShift(p, c), Shift(p, d);
    forall i | 0 <= i < |p|
      ensures (c'[i] != d'[i]) == (i + 1 < |p| && c[i + 1] != d[i + 1])
    {
      assert c[0] != d[0];
    }
  }

  lemma {:induction false} ComplementIndex(v: nat, n: nat)
    requires v < Pow2(n)
    ensures Opposite(FromValue(v, n), FromValue(Pow2(n) - 1 - v, n), n)
  {
    if n > 0 {
      ComplementIndex(v / 2, n - 1);
      assert (Pow2(n) - 1 - v) / 2 == Pow2(n - 1) - 1 - v / 2;
    }
  }

  /** So entry `255 - table`, as the code fills it, is the ordinary entry of that index. */
  lemma TableIsOrdinary(table: nat)
    requires table < 256
    ensures |POLYNOMIAL| == 32 && Polynomial(POLYNOMIAL)
    ensures InvertedShiftN(POLYNOMIAL, Shl(FromValue(table, 32), 24), 8)
            == Entry(POLYNOMIAL, FromValue(255 - table, 8))
  {
    hide Hex, Polynomial, InvertedShift, Shift;
    PolynomialBits();
    Pow2Of8();
    FromValueWider(table, 8, 24);
    ComplementIndex(table, 8);
    var c, d := FromValue(table, 8) + Zeros(24), FromValue(255 - table, 8) + Zeros(24);
    assert Shl(FromValue(table, 32), 24) == c;
    InvertedIsOpposite(POLYNOMIAL, c, d, 8);
    assert Shl(Xor(c, d), 8) == Zeros(32);
    XorZero(ShiftN(POLYNOMIAL, d, 8));
  }

  lemma EntryOfZero()
    ensures |POLYNOMIAL| == 32 && Polynomial(POLYNOMIAL)
    ensures Entry(POLYNOMIAL, FromValue(0, 8)) == Zeros(32)
  {
    hide Hex, Polynomial, ShiftN, BitSerial;
    PolynomialBits();
    FromZero(8);
    MessageOnTop(POLYNOMIAL, Zeros(8));
    ZeroMessage(POLYNOMIAL, 8);
  }

  /* ---- The bytes that are read ---- */

  /** Whether the loop stops once `n` bytes are in. */
  predicate Stops(s: seq<Byte>, maxLength: int, n: nat)
    requires 1 <= n <= |s|
  {
    s[n - 1] == NUL || n > maxLength
  }

  /** The loop stays inside the string. */
  predicate Readable(s: seq<Byte>, maxLength: int) {
    exists n: nat :: 1 <= n <= |s| && Stops(s, maxLength, n)
  }

  /** The number of bytes that go into the checksum: up to and including the NUL, and no more than
      one beyond `maxLength`. */
  function Consumed(s: seq<Byte>, maxLength: int): (n: nat)
    requires Readable(s, maxLength)
    ensures 1 <= n <= |s| && Stops(s, maxLength, n)
    ensures forall k :: 1 <= k < n ==> !Stops(s, maxLength, k)
    ensures forall i :: 0 <= i < n - 1 ==> s[i] != NUL
    ensures s[n - 1] == NUL || n == if maxLength < 0 then 1 else maxLength + 1
    ensures n == 1 || n <= maxLength + 1
  {
    var n := FirstStop(s, maxLength, 1);
    assert n > 1 ==> !Stops(s, maxLength, n - 1);
    n
  }

  function FirstStop(s: seq<Byte>, maxLength: int, from: nat): (n: nat)
    requires 1 <= from && exists n: nat :: from <= n <= |s| && Stops(s, maxLength, n)
    ensures from <= n <= |s| && Stops(s, maxLength, n)
    ensures forall k :: from <= k < n ==> !Stops(s, maxLength, k)
    ensures forall i :: from - 1 <= i < n - 1 ==> s[i] != NUL
    decreases |s| - from
  {
    if Stops(s, maxLength, from) then from else FirstStop(s, maxLength, from + 1)
  }

  function Message(s: seq<Byte>): (bits: seq<bool>)
    ensures |bits| == 8 * |s|
  {
    if s == [] then [] else s[0] + Message(s[1..])
  }

  /** A `char` is signed here: a byte from 128 on gives a negative table index. */
  predicate Ascii(s: seq<Byte>) { forall i :: 0 <= i < |s| ==> !s[i][0] }

  /** The plain CRC-32 with start value 0 and no final exclusive-or. */
  function PlainCrc32(s: seq<Byte>): (r: Word)
    ensures |r| == 32
  {
    PolynomialBits();
    BitSerial(POLYNOMIAL, Message(s), Zeros(32))
  }

  /** The bytes the loop reads. */
  function Read(s: seq<Byte>, maxLength: int): seq<Byte>
    requires Readable(s, maxLength)
  {
    s[..Consumed(s, maxLength)]
  }

  /** What the function is to return; None when a byte takes the index outside the table. */
  function Checksum(s: seq<Byte>, maxLength: int): (r: Option<Word>)
    requires Readable(s, maxLength)
  {
    if Ascii(Read(s, maxLength)) then Some(PlainCrc32(Read(s, maxLength))) else None
  }

  /** `calculate_str_crc32` */
  method CalculateStrCrc32(s: seq<Byte>, maxLength: int) returns (result: Option<Word>)
    requires Readable(s, maxLength)
    ensures result == Checksum(s, maxLength)
    ensures |POLYNOMIAL| == 32 && Polynomial(POLYNOMIAL)
    ensures result.Some? <==> forall i :: 0 <= i < Consumed(s, maxLength) ==> !s[i][0]
    ensures result.Some? ==>
              result.value == BitSerial(POLYNOMIAL, Message(s[..Consumed(s, maxLength)]), Zeros(32))
  {
    hide Hex, Polynomial, BitSerial, Entry;
    PolynomialBits();
    var crctab := new Word[0x400](_ => []);
    var crc, count := BuildTable(crctab);
    ghost var n := Consumed(s, maxLength);
    assert s[..0] == [];
    assert crc == PlainCrc32(s[..0]) by { EmptyMessage(); }
    while true
      invariant 0 <= count < n && |crc| == 32
      invariant TableReady(crctab)
      invariant Ascii(s[..count])
      invariant crc == PlainCrc32(s[..count])
      decreases n - count
    {
      var byte := s[count];
      count := count + 1;
      assert s[..count] == s[..count - 1] + [byte];
      if byte[0] {
        assert s[..n][count - 1][0];
        return None;
      }
      var index := Xor(byte, crc[..8]);
      ByteFeeds(s[..count - 1], byte, crctab, index);
      crc := Xor(crctab[Value(index)], Shl(crc, 8));
      if !(s[count - 1] != NUL && count <= maxLength) { break; }
      assert !Stops(s, maxLength, count);
    }
    assert Stops(s, maxLength, count) && count == n;
    result := Some(crc);
  }

  ghost predicate TableReady(crctab: array<Word>)
    reads crctab
  {
    && crctab.Length == 0x400
    && |POLYNOMIAL| == 32 && Polynomial(POLYNOMIAL)
    && forall i :: 0 <= i < 256 ==> crctab[i] == Entry(POLYNOMIAL, FromValue(i, 8))
  }

  /** The first half of the function; it leaves `crc` and `count` at 0 for the second. */
  method BuildTable(crctab: array<Word>) returns (crc: Word, count: int)
    requires crctab.Length == 0x400
    modifies crctab
    ensures TableReady(crctab)
    ensures crc == Zeros(32) && count == 0
  {
    hide Hex, Polynomial, Entry, InvertedShiftN, FromValue, Shl;
    PolynomialBits();
    crc, count := [], 0;
    var table := 0;
    while table < 256
      invariant 0 <= table <= 256
      invariant forall i :: 256 - table <= i < 256 ==> crctab[i] == Entry(POLYNOMIAL, FromValue(i, 8))
      invariant table > 0 ==> crc == Entry(POLYNOMIAL, FromValue(256 - table, 8)) && count == 0
    {
      TableIsOrdinary(table);
      crc, count := InvertedSteps(Shl(FromValue(table, 32), 24));
      crctab[255 - table] := crc;
      table := table + 1;
    }
    EntryOfZero();
  }

  method InvertedSteps(start: Word) returns (crc: Word, count: int)
    requires |start| == 32 == |POLYNOMIAL| && Polynomial(POLYNOMIAL)
    ensures crc == InvertedShiftN(POLYNOMIAL, start, 8) && count == 0
  {
    hide Hex, Polynomial, Xor, Shl;
    crc, count := start, 8;
    while count > 0
      invariant 0 <= count <= 8 && |crc| == 32
      invariant InvertedShiftN(POLYNOMIAL, crc, count) == InvertedShiftN(POLYNOMIAL, start, 8)
    {
      crc := if crc[0] then Shl(crc, 1) else Xor(Shl(crc, 1), POLYNOMIAL);
      count := count - 1;
    }
  }

  lemma EmptyMessage()
    ensures PlainCrc32([]) == Zeros(32)
  {
  }

  lemma ByteFeeds(s: seq<Byte>, byte: Byte, crctab: array<Word>, index: Word)
    requires TableReady(crctab) && index == Xor(byte, PlainCrc32(s)[..8])
    ensures Value(index) < 256 && |crctab[Value(index)]| == 32
    ensures PlainCrc32(s + [byte]) == Xor(crctab[Value(index)], Shl(PlainCrc32(s), 8))
  {
    hide Hex, Polynomial, BitSerial, Entry, ShiftN;
    PolynomialBits();
    Pow2Of8();
    FromValueOfValue(index);
    var crc := PlainCrc32(s);
    assert index == Xor(crc[..8], byte);
    EntryFeeds(POLYNOMIAL, crc, byte);
    MessageSplits(s, [byte]);
    assert Message([byte]) == byte + [] == byte;
    BitSerialSplits(POLYNOMIAL, Message(s), byte, Zeros(32));
  }

  lemma {:induction false} MessageSplits(a: seq<Byte>, b: seq<Byte>)
    ensures Message(a + b) == Message(a) + Message(b)
  {
    if a == [] {
      assert a + b == b;
    } else {
      assert (a + b)[1..] == a[1..] + b;
      MessageSplits(a[1..], b);
    }
  }

  lemma {:induction false} MessageInjective(a: seq<Byte>, b: seq<Byte>)
    requires |a| == |b| && Message(a) == Message(b)
    ensures a == b
  {
    if a != [] {
      assert Message(a)[..8] == a[0] && Message(b)[..8] == b[0];
      assert Message(a)[8..] == Message(a[1..]) && Message(b)[8..] == Message(b[1..]);
      MessageInjective(a[1..], b[1..]);
    }
  }

  /** The bits of the message: byte by byte, each from its top bit down. */
  lemma {:induction false} MessageBit(s: seq<Byte>, i: nat, k: nat)
    requires i < |s| && k < 8
    ensures Message(s)[8 * i + k] == s[i][k]
  {
    if i > 0 {
      MessageBit(s[1..], i - 1, k);
      assert Message(s)[8 * i + k] == Message(s[1..])[8 * (i - 1) + k];
    }
  }

  /** The checksum of the single byte 0x01 is the polynomial itself. */
  lemma ChecksumOfOne()
    ensures PlainCrc32([NUL[7 := true]]) == POLYNOMIAL
  {
    hide Hex, Polynomial;
    PolynomialBits();
    var b := NUL[7 := true];
    assert Message([b]) == b + [] == Zeros(7) + [true];
    BitSerialSplits(POLYNOMIAL, Zeros(7), [true], Zeros(32));
    ZeroMessage(POLYNOMIAL, 7);
    assert [true][1..] == [];
    hide BitSerial;
    assert Xor(Shl(Zeros(32)[0 := true], 1), POLYNOMIAL) == POLYNOMIAL;
  }

  lemma BytesApart(before: seq<Byte>, x: seq<Byte>, y: seq<Byte>, after: seq<Byte>)
    requires |x| == |y| <= 4 && x != y
    ensures PlainCrc32(before + x + after) != PlainCrc32(before + y + after)
  {
    hide Message, BitSerial, Hex, Polynomial;
    PolynomialBits();
    MessageSplits(before + x, after);
    MessageSplits(before, x);
    MessageSplits(before + y, after);
    MessageSplits(before, y);
    if Message(x) == Message(y) {
      MessageInjective(x, y);
    }
    BurstDetected(POLYNOMIAL, Message(before), Message(x), Message(y), Message(after), Zeros(32));
  }

  /** Where the loop stops is a matter of where the NUL bytes are. */
  lemma SameStop(s: seq<Byte>, t: seq<Byte>, maxLength: int)
    requires |s| == |t| && Readable(s, maxLength)
    requires forall i :: 0 <= i < |s| ==> (s[i] == NUL <==> t[i] == NUL)
    ensures Readable(t, maxLength) && Consumed(t, maxLength) == Consumed(s, maxLength)
  {
    hide Consumed;
    var n := Consumed(s, maxLength);
    assert forall k :: 1 <= k <= |s| ==> Stops(s, maxLength, k) == Stops(t, maxLength, k);
    assert Stops(t, maxLength, n);
  }

  /** Titles the loop can read that differ only within four adjacent characters, all of them among the
      characters it does read, get different checksums. */
  lemma TitlesApart(before: seq<Byte>, x: seq<Byte>, y: seq<Byte>, after: seq<Byte>, maxLength: int)
    requires |x| == |y| <= 4 && x != y && NUL !in x && NUL !in y
    requires Readable(before + x + after, maxLength)
    requires |before + x| <= Consumed(before + x + after, maxLength)
    requires Ascii(Read(before + x + after, maxLength)) && Ascii(y)
    ensures Readable(before + y + after, maxLength)
    ensures var a, b := Checksum(before + x + after, maxLength), Checksum(before + y + after, maxLength);
            a.Some? && b.Some? && a != b
  {
    hide Consumed, Readable, PlainCrc32;
    var s, t := before + x + after, before + y + after;
    forall i | 0 <= i < |s|
      ensures s[i] == NUL <==> t[i] == NUL
    {
      if |before| <= i < |before + x| {
        assert s[i] == x[i - |before|] && t[i] == y[i - |before|];
      }
    }
    SameStop(s, t, maxLength);
    var rest := after[..Consumed(s, maxLength) - |before + x|];
    assert Read(s, maxLength) == before + x + rest;
    assert Read(t, maxLength) == before + y + rest;
    AsciiParts(before, x, y, rest);
    BytesApart(before, x, y, rest);
  }

  lemma AsciiParts(before: seq<Byte>, x: seq<Byte>, y: seq<Byte>, rest: seq<Byte>)
    requires |x| == |y| && Ascii(before + x + rest) && Ascii(y)
    ensures Ascii(before + y + rest)
  {
    forall i | 0 <= i < |before + y + rest|
      ensures !(before + y + rest)[i][0]
    {
      if |before| <= i < |before + y| {
        assert (before + y + rest)[i] == y[i - |before|];
      } else {
        assert (before + y + rest)[i] == (before + x + rest)[i];
      }
    }
  }
}
