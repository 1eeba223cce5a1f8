/** The CRC-16 of the boot-logo check: a byte-wise table form of division by
    x^16 + x^15 + x^2 + 1, with bytes reflected on the way in and the remainder on the way out. */
module Crc16 {
  import opened Words
  import opened CrcTheory

  const POLYNOMIAL := Hex([0x8, 0x0, 0x0, 0x5])
  const REFLECTED_POLYNOMIAL := Hex([0xA, 0x0, 0x0, 0x1])

  lemma PolynomialBits()
    ensures Polynomial(POLYNOMIAL) && |POLYNOMIAL| == 16
    ensures Reverse(POLYNOMIAL) == REFLECTED_POLYNOMIAL
  {
    hide Hex;
    SixteenBits();
  }

  lemma SixteenBits()
    ensures var f, t := false, true;
            && POLYNOMIAL == [t, f, f, f, f, f, f, f, f, f, f, f, f, t, f, t]
            && REFLECTED_POLYNOMIAL == [t, f, t, f, f, f, f, f, f, f, f, f, f, f, f, t]
  {
    assert [0x8, 0x0, 0x0, 0x5][1..] == [0x0, 0x0, 0x5];
    assert [0x0, 0x0, 0x5][1..] == [0x0, 0x5];
    assert [0x0, 0x5][1..] == [0x5];
    assert [0xA, 0x0, 0x0, 0x1][1..] == [0x0, 0x0, 0x1];
    assert [0x0, 0x0, 0x1][1..] == [0x0, 0x1];
    assert [0x0, 0x1][1..] == [0x1];
  }

  /** The message bits of a buffer: every byte least significant bit first. */
  function Bits(buffer: seq<Byte>): (bits: seq<bool>)
    ensures |bits| == 8 * |buffer|
  {
    if buffer == [] then [] else Reverse(buffer[0]) + Bits(buffer[1..])
  }

  /** One round of the table form. */
  function ByteIn(c: Word, b: Byte): (r: Word)
    requires |c| == 16
    ensures |r| == 16
  {
    PolynomialBits();
    Xor(Entry(POLYNOMIAL, Xor(c[..8], Reverse(b))), Shl(c, 8))
  }

  function Checksum(buffer: seq<Byte>, c: Word): (r: Word)
    requires |c| == 16
    ensures |r| == 16
  {
    if buffer == [] then c else Checksum(buffer[1..], ByteIn(c, buffer[0]))
  }

  /** `reflect(data, nBits)` on 16-bit data. */
  function Reflected(data: Word, nBits: nat): (r: Word)
    requires |data| == 16 && nBits <= 16
    ensures |r| == 16
  {
    Zeros(16 - nBits) + Reverse(Low(data, nBits))
  }

  /** The file's static table and the functions over it. */
  class Engine {
    var table: array<Word>

    ghost predicate Ready()
      reads this, table
    {
      && table.Length == 256
      && Polynomial(POLYNOMIAL)
      && forall i :: 0 <= i < 256 ==> table[i] == Entry(POLYNOMIAL, FromValue(i, 8))
    }

    constructor ()
      ensures table.Length == 256 && fresh(table)
    {
      table := new Word[256](_ => []);
    }

    method InitCRC16Table()
      requires table.Length == 256
      modifies table
      ensures Ready()
    {
      hide Hex, Polynomial, Entry, ShiftN;
      PolynomialBits();
      var i := 0;
      while i < 256
        invariant 0 <= i <= 256
        invariant forall k :: 0 <= k < i ==> table[k] == Entry(POLYNOMIAL, FromValue(k, 8))
      {
        EntryOfIndex(i);
        var crc := DivideEightSteps(Shl(FromValue(i, 16), 8));
        table[i] := crc;
        i := i + 1;
      }
    }

    /** The inner loop. */
    static method DivideEightSteps(start: Word) returns (crc: Word)
      requires |start| == 16 && Polynomial(POLYNOMIAL) && |POLYNOMIAL| == 16
      ensures crc == ShiftN(POLYNOMIAL, start, 8)
    {
      hide Hex, Polynomial, Xor, Shl;
      crc := start;
      var j := 0;
      while j < 8
        invariant 0 <= j <= 8 && |crc| == 16
        invariant ShiftN(POLYNOMIAL, crc, 8 - j) == ShiftN(POLYNOMIAL, start, 8)
      {
        crc := if crc[0] then Xor(Shl(crc, 1), POLYNOMIAL) else Shl(crc, 1);
        j := j + 1;
      }
    }

    static lemma EntryOfIndex(i: nat)
      requires i < 256
      ensures |POLYNOMIAL| == 16 && Polynomial(POLYNOMIAL)
      ensures ShiftN(POLYNOMIAL, Shl(FromValue(i, 16), 8), 8) == Entry(POLYNOMIAL, FromValue(i, 8))
    {
      hide Hex, Polynomial, ShiftN;
      PolynomialBits();
      IndexAtTop(i);
    }

    static lemma IndexAtTop(i: nat)
      requires i < 256
      ensures Shl(FromValue(i, 16), 8) == FromValue(i, 8) + Zeros(8)
    {
      Pow2Of8();
      FromValueWider(i, 8, 8);
    }

    static method Reflect(data: Word, nBits: nat) returns (reflection: Word)
      requires |data| == 16 && nBits <= 16
      ensures reflection == Reflected(data, nBits)
      ensures forall k :: 0 <= k < 16 ==>
                (reflection[k] <==> 16 - nBits <= k && data[15 - (k - (16 - nBits))])
    {
      var d, bit := data, 0;
      reflection := Zeros(16);
      while bit < nBits
        invariant 0 <= bit <= nBits
        invariant d == Shr(data, bit) && |reflection| == 16
        invariant forall k :: 0 <= k < 16 ==>
                    reflection[k] == (16 - nBits <= k < 16 - nBits + bit && data[15 - (k - (16 - nBits))])
      {
        // bit number nBits-1-bit sits at index 15-(nBits-1-bit)
        if d[15] { reflection := reflection[16 - nBits + bit := true]; }
        d := Shr(d, 1);
        bit := bit + 1;
      }
    }

    method CalculateCRC16(buffer: seq<Byte>, length: nat, initialChecksum: Word) returns (crc: Word)
      requires Ready() && length <= |buffer| && |initialChecksum| == 16
      ensures crc == Checksum(buffer[..length], initialChecksum)
      ensures crc == BitSerial(POLYNOMIAL, Bits(buffer[..length]), initialChecksum)
    {
      ChecksumIsDivision(buffer[..length], initialChecksum);
      hide BitSerial, Bits, Hex;
      crc := initialChecksum;
      var i := 0;
      while i < length
        invariant 0 <= i <= length && |crc| == 16
        invariant Checksum(buffer[..length], initialChecksum) == Checksum(buffer[i..length], crc)
      {
        var data := Reflect(Zeros(8) + buffer[i], 8);
        var index := Low(Xor(Shr(crc, 8), data), 8);
        assert index == Xor(crc[..8], Reverse(buffer[i])) by { IndexBits(crc, buffer[i], data); }
        FromValueOfValue(index);
        Pow2Of8();
        assert buffer[i..length][0] == buffer[i] && buffer[i..length][1..] == buffer[i + 1..length];
        crc := Xor(table[Value(index)], Shl(crc, 8));
        i := i + 1;
      }
      assert buffer[length..length] == [];
    }

    static lemma IndexBits(crc: Word, b: Byte, data: Word)
      requires |crc| == 16 && data == Reflected(Zeros(8) + b, 8)
      ensures Low(Xor(Shr(crc, 8), data), 8) == Xor(crc[..8], Reverse(b))
    {
      assert Low(Zeros(8) + b, 8) == b;
    }

    static method ReflectAndXORCRC16(crc: Word) returns (result: Word)
      requires |crc| == 16
      ensures result == Reverse(crc)
    {
      var remainder := Reflect(crc, 16);
      assert Low(crc, 16) == crc;
      XorZero(remainder);
      result := Xor(remainder, Zeros(16));
    }
  }

  /* ---- reflect ---- */

  /** Reflecting twice gives back the low `nBits` bits. */
  lemma ReflectInvolution(data: Word, nBits: nat)
    requires |data| == 16 && nBits <= 16
    ensures Reflected(Reflected(data, nBits), nBits) == Zeros(16 - nBits) + Low(data, nBits)
  {
    assert Low(Reflected(data, nBits), nBits) == Reverse(Low(data, nBits));
    ReverseTwice(Low(data, nBits));
  }

  /* ---- The table form is the bit-serial division ---- */

  lemma {:induction false} ChecksumIsDivision(buffer: seq<Byte>, c: Word)
    requires |c| == 16
    ensures |POLYNOMIAL| == 16 && Polynomial(POLYNOMIAL)
    ensures Checksum(buffer, c) == BitSerial(POLYNOMIAL, Bits(buffer), c)
  {
    PolynomialBits();
    if buffer != [] {
      EntryFeeds(POLYNOMIAL, c, Reverse(buffer[0]));
      BitSerialSplits(POLYNOMIAL, Reverse(buffer[0]), Bits(buffer[1..]), c);
      hide BitSerial, Entry, Xor;
      ChecksumIsDivision(buffer[1..], ByteIn(c, buffer[0]));
    }
  }

  /** Checksums continue: the checksum of the first part is the start value for the second. */
  lemma {:induction false} ChecksumSplits(a: seq<Byte>, b: seq<Byte>, c: Word)
    requires |c| == 16
    ensures Checksum(a + b, c) == Checksum(b, Checksum(a, c))
  {
    hide ByteIn;
    if a == [] {
      assert a + b == b;
    } else {
      assert (a + b)[1..] == a[1..] + b;
      ChecksumSplits(a[1..], b, ByteIn(c, a[0]));
    }
  }

  /** The reported value is the usual low-end-first CRC with the reversed polynomial. */
  lemma ReportedChecksum(buffer: seq<Byte>, c: Word)
    requires |c| == 16
    ensures |REFLECTED_POLYNOMIAL| == 16
    ensures Reverse(Checksum(buffer, c)) == BitSerialLow(REFLECTED_POLYNOMIAL, Bits(buffer), Reverse(c))
  {
    PolynomialBits();
    ChecksumIsDivision(buffer, c);
    MirroredRegister(POLYNOMIAL, Bits(buffer), c);
  }

  /** Appending the reported checksum, low byte first, makes the checksum zero. */
  lemma ResidueIsZero(buffer: seq<Byte>, c: Word)
    requires |c| == 16
    ensures var v := Reverse(Checksum(buffer, c));
            Checksum(buffer + [v[8..], v[..8]], c) == Zeros(16)
  {
    hide BitSerial, Checksum;
    PolynomialBits();
    var r := Checksum(buffer, c);
    var v := Reverse(r);
    var low: Byte, high: Byte := v[8..], v[..8];
    ChecksumSplits(buffer, [low, high], c);
    ChecksumIsDivision([low, high], r);
    assert [low, high][1..] == [high] && [high][1..] == [];
    assert Bits([high]) == Reverse(high) + [];
    ReverseConcat(high, low);
    assert high + low == v;
    ReverseTwice(r);
    assert Bits([low, high]) == r;
    OwnBitsCancel(POLYNOMIAL, r);
  }

  /* ---- Linearity and error detection ---- */

  function XorBytes(a: seq<Byte>, b: seq<Byte>): (s: seq<Byte>)
    requires |a| == |b|
    ensures |s| == |a|
  {
    if a == [] then [] else [Xor(a[0], b[0])] + XorBytes(a[1..], b[1..])
  }

  /** The checksum of a difference is the difference of the checksums. */
  lemma {:induction false} ChecksumLinear(a: seq<Byte>, b: seq<Byte>, c: Word, d: Word)
    requires |a| == |b| && |c| == |d| == 16
    ensures Checksum(XorBytes(a, b), Xor(c, d)) == Xor(Checksum(a, c), Checksum(b, d))
  {
    ChecksumIsDivision(a, c);
    ChecksumIsDivision(b, d);
    ChecksumIsDivision(XorBytes(a, b), Xor(c, d));
    BitSerialLinear(POLYNOMIAL, Bits(a), Bits(b), c, d);
    BitsLinear(a, b);
  }

  lemma {:induction false} BitsLinear(a: seq<Byte>, b: seq<Byte>)
    requires |a| == |b|
    ensures Bits(XorBytes(a, b)) == Xor(Bits(a), Bits(b))
  {
    if a != [] {
      BitsLinear(a[1..], b[1..]);
      ReverseXor(a[0], b[0]);
      assert Xor(Reverse(a[0]) + Bits(a[1..]), Reverse(b[0]) + Bits(b[1..]))
          == Xor(Reverse(a[0]), Reverse(b[0])) + Xor(Bits(a[1..]), Bits(b[1..]));
    }
  }

  lemma {:induction false} BitsSplit(a: seq<Byte>, b: seq<Byte>)
    ensures Bits(a + b) == Bits(a) + Bits(b)
  {
    if a == [] {
      assert a + b == b;
    } else {
      assert (a + b)[1..] == a[1..] + b;
      BitsSplit(a[1..], b);
    }
  }

  lemma {:induction false} BitsInjective(a: seq<Byte>, b: seq<Byte>)
    requires |a| == |b| && Bits(a) == Bits(b)
    ensures a == b
  {
    if a != [] {
      assert Bits(a)[..8] == Reverse(a[0]) && Bits(b)[..8] == Reverse(b[0]);
      ReverseTwice(a[0]);
      ReverseTwice(b[0]);
      assert Bits(a)[8..] == Bits(a[1..]) && Bits(b)[8..] == Bits(b[1..]);
      BitsInjective(a[1..], b[1..]);
    }
  }

  /** Two different buffers of one length whose bits differ only inside 16 consecutive positions
      never have the same checksum, whatever the length, the place and the start value. */
  lemma ShortDifferenceDetected(a: seq<Byte>, b: seq<Byte>, at: nat, c: Word)
    requires |a| == |b| && a != b && |c| == 16
    requires forall i :: 0 <= i < 8 * |a| && !(at <= i < at + 16) ==> Bits(a)[i] == Bits(b)[i]
    ensures Checksum(a, c) != Checksum(b, c)
  {
    hide Bits, BitSerial, Checksum, Hex, Polynomial;
    PolynomialBits();
    var n, x, y := 8 * |a|, Bits(a), Bits(b);
    var from := if at < n then at else n;
    var to := if at + 16 < n then at + 16 else n;
    Window(x, y, from, to);
    if x[from..to] == y[from..to] {
      BitsInjective(a, b);
    }
    ChecksumIsDivision(a, c);
    ChecksumIsDivision(b, c);
    BurstDetected(POLYNOMIAL, x[..from], x[from..to], y[from..to], x[to..], c);
  }

  lemma Window(x: seq<bool>, y: seq<bool>, from: nat, to: nat)
    requires |x| == |y| && from <= to <= |x|
    requires forall i :: 0 <= i < |x| && !(from <= i < to) ==> x[i] == y[i]
    ensures x == x[..from] + x[from..to] + x[to..]
    ensures y == x[..from] + y[from..to] + x[to..]
  {
  }

  lemma BitsFramed(before: seq<Byte>, x: seq<Byte>, after: seq<Byte>)
    ensures Bits(before + x + after) == Bits(before) + Bits(x) + Bits(after)
  {
    hide Bits;
    BitsSplit(before + x, after);
    BitsSplit(before, x);
  }

  /** In particular two buffers that differ only in two adjacent bytes. */
  lemma AdjacentBytesDetected(before: seq<Byte>, x: seq<Byte>, y: seq<Byte>, after: seq<Byte>, c: Word)
    requires |x| == |y| <= 2 && x != y && |c| == 16
    ensures Checksum(before + x + after, c) != Checksum(before + y + after, c)
  {
    hide Bits, BitSerial, Checksum, Hex, Polynomial;
    PolynomialBits();
    BitsFramed(before, x, after);
    BitsFramed(before, y, after);
    if Bits(x) == Bits(y) {
      BitsInjective(x, y);
    }
    ChecksumIsDivision(before + x + after, c);
    ChecksumIsDivision(before + y + after, c);
    BurstDetected(POLYNOMIAL, Bits(before), Bits(x), Bits(y), Bits(after), c);
  }

  lemma EvenTerms()
    ensures |POLYNOMIAL| == 16 && Polynomial(POLYNOMIAL) && Odd(POLYNOMIAL)
  {
    hide Hex, Polynomial, OnesIn;
    PolynomialBits();
    OnesHex([0x8, 0x0, 0x0, 0x5]);
    assert [0x8, 0x0, 0x0, 0x5][1..] == [0x0, 0x0, 0x5];
    OnesHex([0x0, 0x0, 0x5]);
    assert [0x0, 0x0, 0x5][1..] == [0x0, 0x5];
    OnesHex([0x0, 0x5]);
    assert [0x0, 0x5][1..] == [0x5];
    OnesHex([0x5]);
    NoDigits();
    DigitOnes();
  }

  lemma NoDigits()
    ensures [0x5][1..] == [] && Ones(Hex([])) == 0
  {
  }

  lemma DigitOnes()
    ensures OnesIn(0x8) == 1 && OnesIn(0x0) == 0 && OnesIn(0x5) == 2
  {
  }

  /** Two buffers of one length that differ in an odd number of bits never have the same checksum,
      however far apart those bits are. */
  lemma OddDifferenceDetected(a: seq<Byte>, b: seq<Byte>, c: Word)
    requires |a| == |b| && |c| == 16 && Odd(Xor(Bits(a), Bits(b)))
    ensures Checksum(a, c) != Checksum(b, c)
  {
    hide Bits, BitSerial, Checksum, Hex, Polynomial, Odd, Xor;
    EvenTerms();
    ChecksumIsDivision(a, c);
    ChecksumIsDivision(b, c);
    OddErrorsDetected(POLYNOMIAL, Bits(a), Bits(b), c);
  }
}
