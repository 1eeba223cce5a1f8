/** Division of a bit message by a polynomial, in a shift register of any width. `p` holds the
    polynomial without its leading term; its constant term is 1. */
module CrcTheory {
  import opened Words

  predicate Polynomial(p: Word) { |p| >= 8 && p[|p| - 1] }

  /** One step of the division register. */
  function Shift(p: Word, c: Word): (r: Word)
    requires Polynomial(p) && |c| == |p|
    ensures |r| == |p|
  {
    if c[0] then Xor(Shl(c, 1), p) else Shl(c, 1)
  }

  function ShiftN(p: Word, c: Word, n: nat): (r: Word)
    requires Polynomial(p) && |c| == |p|
    ensures |r| == |p|
    decreases n
  {
    if n == 0 then c else ShiftN(p, Shift(p, c), n - 1)
  }

  /** Bring one message bit into the register. */
  function BitIn(p: Word, c: Word, bit: bool): (r: Word)
    requires Polynomial(p) && |c| == |p|
    ensures |r| == |p|
  {
    Shift(p, c[0 := c[0] != bit])
  }

  /** The register after the bits of a message: the reference definition of every CRC here. */
  function BitSerial(p: Word, bits: seq<bool>, c: Word): (r: Word)
    requires Polynomial(p) && |c| == |p|
    ensures |r| == |p|
  {
    if bits == [] then c else BitSerial(p, bits[1..], BitIn(p, c, bits[0]))
  }

  /* ---- Linearity and invertibility ---- */

  lemma ShiftLinear(p: Word, a: Word, b: Word)
    requires Polynomial(p) && |a| == |b| == |p|
    ensures Shift(p, Xor(a, b)) == Xor(Shift(p, a), Shift(p, b))
  {
  }

  lemma ShiftInjective(p: Word, a: Word, b: Word)
    requires Polynomial(p) && |a| == |b| == |p| && Shift(p, a) == Shift(p, b)
    ensures a == b
  {
    var n := |p|;
    assert Shift(p, a)[n - 1] == a[0] && Shift(p, b)[n - 1] == b[0];
    forall i | 1 <= i < n
      ensures a[i] == b[i]
    {
      assert Shl(a, 1)[i - 1] == a[i] && Shl(b, 1)[i - 1] == b[i];
      assert Shift(p, a)[i - 1] == Shift(p, b)[i - 1];
    }
  }

  lemma {:induction false} ShiftNLinear(p: Word, a: Word, b: Word, n: nat)
    requires Polynomial(p) && |a| == |b| == |p|
    ensures ShiftN(p, Xor(a, b), n) == Xor(ShiftN(p, a, n), ShiftN(p, b, n))
    decreases n
  {
    hide Shift, Xor;
    if n > 0 {
      ShiftLinear(p, a, b);
      ShiftNLinear(p, Shift(p, a), Shift(p, b), n - 1);
    }
  }

  lemma ShiftNStep(p: Word, c: Word, n: nat)
    requires Polynomial(p) && |c| == |p|
    ensures ShiftN(p, c, n) == if n > 0 then ShiftN(p, Shift(p, c), n - 1) else c
  {
    hide Shift;
  }

  lemma {:induction false} ShiftNInjective(p: Word, a: Word, b: Word, n: nat)
    requires Polynomial(p) && |a| == |b| == |p| && ShiftN(p, a, n) == ShiftN(p, b, n)
    ensures a == b
    decreases n
  {
    hide ShiftN, Shift;
    ShiftNStep(p, a, n);
    ShiftNStep(p, b, n);
    if n > 0 {
      ShiftNInjective(p, Shift(p, a), Shift(p, b), n - 1);
      ShiftInjective(p, a, b);
    }
  }

  lemma BitInLinear(p: Word, a: Word, b: Word, x: bool, y: bool)
    requires Polynomial(p) && |a| == |b| == |p|
    ensures BitIn(p, Xor(a, b), x != y) == Xor(BitIn(p, a, x), BitIn(p, b, y))
  {
    ShiftLinear(p, a[0 := a[0] != x], b[0 := b[0] != y]);
    hide Shift;
    assert Xor(a[0 := a[0] != x], b[0 := b[0] != y]) == Xor(a, b)[0 := Xor(a, b)[0] != (x != y)];
  }

  /** A CRC is linear in the message and the start value together. */
  lemma {:induction false} BitSerialLinear(p: Word, xs: seq<bool>, ys: seq<bool>, a: Word, b: Word)
    requires Polynomial(p) && |a| == |b| == |p| && |xs| == |ys|
    ensures BitSerial(p, Xor(xs, ys), Xor(a, b)) == Xor(BitSerial(p, xs, a), BitSerial(p, ys, b))
  {
    hide BitIn;
    if xs != [] {
      BitInLinear(p, a, b, xs[0], ys[0]);
      BitSerialLinear(p, xs[1..], ys[1..], BitIn(p, a, xs[0]), BitIn(p, b, ys[0]));
      assert Xor(xs, ys)[1..] == Xor(xs[1..], ys[1..]);
    }
  }

  /** For a fixed message the register can be run backwards. */
  lemma {:induction false} BitSerialInjective(p: Word, xs: seq<bool>, a: Word, b: Word)
    requires Polynomial(p) && |a| == |b| == |p| && BitSerial(p, xs, a) == BitSerial(p, xs, b)
    ensures a == b
  {
    if xs != [] {
      BitSerialInjective(p, xs[1..], BitIn(p, a, xs[0]), BitIn(p, b, xs[0]));
      var a', b' := a[0 := a[0] != xs[0]], b[0 := b[0] != xs[0]];
      ShiftInjective(p, a', b');
      hide Shift;
      assert a == a'[0 := a'[0] != xs[0]] && b == b'[0 := b'[0] != xs[0]];
    }
  }

  lemma {:induction false} BitSerialSplits(p: Word, xs: seq<bool>, ys: seq<bool>, c: Word)
    requires Polynomial(p) && |c| == |p|
    ensures BitSerial(p, xs + ys, c) == BitSerial(p, ys, BitSerial(p, xs, c))
  {
    hide BitIn;
    if xs == [] {
      assert xs + ys == ys;
    } else {
      assert (xs + ys)[1..] == xs[1..] + ys;
      BitSerialSplits(p, xs[1..], ys, BitIn(p, c, xs[0]));
    }
  }

  /* ---- Several steps at a time ---- */

  /** Dividing on with a word laid over the register feeds in the top bits of that word. */
  lemma {:induction false} ShiftFeeds(p: Word, c: Word, w: Word, n: nat)
    requires Polynomial(p) && |c| == |w| == |p| && n <= |p|
    ensures ShiftN(p, Xor(c, w), n) == Xor(BitSerial(p, w[..n], c), Shl(w, n))
    decreases n
  {
    ShlPeels(w, n);
    hide BitIn, Shift, Xor, Shl;
    if n > 0 {
      ShiftPeels(p, c, w);
      ShiftFeeds(p, BitIn(p, c, w[0]), Shl(w, 1), n - 1);
    }
  }

  lemma ShlPeels(w: Word, n: nat)
    requires 0 < |w| && n <= |w|
    ensures n == 0 ==> w[..n] == [] && Shl(w, n) == w
    ensures n > 0 ==> w[..n][0] == w[0] && w[..n][1..] == Shl(w, 1)[..n - 1] && Shl(Shl(w, 1), n - 1) == Shl(w, n)
  {
  }

  lemma ShiftPeels(p: Word, c: Word, w: Word)
    requires Polynomial(p) && |c| == |w| == |p|
    ensures Shift(p, Xor(c, w)) == Xor(BitIn(p, c, w[0]), Shl(w, 1))
  {
  }

  /** The table of a byte-wise CRC: what eight steps make of a byte at the top of the register. */
  function Entry(p: Word, b: Word): (r: Word)
    requires Polynomial(p) && |b| == 8
    ensures |r| == |p|
  {
    ShiftN(p, b + Zeros(|p| - 8), 8)
  }

  /** From an empty register, a word with the message on top divides as the message does. */
  lemma MessageOnTop(p: Word, d: seq<bool>)
    requires Polynomial(p) && |d| <= |p|
    ensures ShiftN(p, d + Zeros(|p| - |d|), |d|) == BitSerial(p, d, Zeros(|p|))
  {
    hide ShiftN, BitSerial, Xor;
    var n, w := |p|, d + Zeros(|p| - |d|);
    ShiftFeeds(p, Zeros(n), w, |d|);
    assert w[..|d|] == d && Shl(w, |d|) == Zeros(n);
    XorZero(w);
    XorZero(BitSerial(p, d, Zeros(n)));
  }

  /** The low part of the register only moves up. */
  lemma LowPartMoves(p: Word, c: Word)
    requires Polynomial(p) && |c| == |p|
    ensures ShiftN(p, Zeros(8) + c[8..], 8) == Shl(c, 8)
  {
    hide ShiftN, BitSerial, Xor;
    var n, rest := |p|, Zeros(8) + c[8..];
    ShiftFeeds(p, Zeros(n), rest, 8);
    assert rest[..8] == Zeros(8) && Shl(rest, 8) == Shl(c, 8);
    ZeroMessage(p, 8);
    XorZero(rest);
    XorZero(Shl(c, 8));
  }

  /** One table look-up brings in eight message bits. */
  lemma EntryFeeds(p: Word, c: Word, b: Word)
    requires Polynomial(p) && |c| == |p| && |b| == 8
    ensures Xor(Entry(p, Xor(c[..8], b)), Shl(c, 8)) == BitSerial(p, b, c)
  {
    var w, top, rest := b + Zeros(|p| - 8), Xor(c[..8], b) + Zeros(|p| - 8), Zeros(8) + c[8..];
    TopAndRest(c, b);
    hide ShiftN, BitSerial, Xor;
    ShiftNLinear(p, top, rest, 8);
    LowPartMoves(p, c);
    ByteOnTop(p, c, b);
  }

  lemma TopAndRest(c: Word, b: Word)
    requires |b| == 8 <= |c|
    ensures Xor(c, b + Zeros(|c| - 8)) == Xor(Xor(c[..8], b) + Zeros(|c| - 8), Zeros(8) + c[8..])
  {
  }

  lemma ByteOnTop(p: Word, c: Word, b: Word)
    requires Polynomial(p) && |c| == |p| && |b| == 8
    ensures ShiftN(p, Xor(c, b + Zeros(|p| - 8)), 8) == BitSerial(p, b, c)
  {
    hide ShiftN, BitSerial, Xor;
    var w := b + Zeros(|p| - 8);
    ShiftFeeds(p, c, w, 8);
    assert w[..8] == b && Shl(w, 8) == Zeros(|p|);
    XorZero(BitSerial(p, b, c));
  }

  lemma {:induction false} ZeroMessage(p: Word, n: nat)
    requires Polynomial(p)
    ensures BitSerial(p, Zeros(n), Zeros(|p|)) == Zeros(|p|)
  {
    if n > 0 {
      var z := Zeros(|p|);
      assert z[0 := z[0] != false] == z && Shift(p, z) == z;
      assert Zeros(n)[1..] == Zeros(n - 1);
      ZeroMessage(p, n - 1);
    }
  }

  /* ---- Error detection ---- */

  /** A nonzero message no longer than the register leaves a nonzero remainder. */
  lemma ShortMessage(p: Word, d: seq<bool>)
    requires Polynomial(p) && |d| <= |p| && BitSerial(p, d, Zeros(|p|)) == Zeros(|p|)
    ensures d == Zeros(|d|)
  {
    hide ShiftN, BitSerial;
    var w, z := d + Zeros(|p| - |d|), Zeros(|d|) + Zeros(|p| - |d|);
    MessageOnTop(p, d);
    MessageOnTop(p, Zeros(|d|));
    ZeroMessage(p, |d|);
    ShiftNInjective(p, w, z, |d|);
    assert d == w[..|d|] == z[..|d|];
  }

  /** From one register, different short messages of one length lead to different registers. */
  lemma ShortMessagesApart(p: Word, xs: seq<bool>, ys: seq<bool>, c: Word)
    requires Polynomial(p) && |c| == |p| && |xs| == |ys| <= |p|
    requires BitSerial(p, xs, c) == BitSerial(p, ys, c)
    ensures xs == ys
  {
    hide BitSerial, Xor;
    BitSerialLinear(p, xs, ys, c, c);
    XorCancels(c, c);
    XorCancels(BitSerial(p, xs, c), c);
    ShortMessage(p, Xor(xs, ys));
    XorCancels(xs, ys);
  }

  lemma BitSerialFramed(p: Word, before: seq<bool>, xs: seq<bool>, after: seq<bool>, c: Word)
    requires Polynomial(p) && |c| == |p|
    ensures BitSerial(p, before + xs + after, c)
         == BitSerial(p, after, BitSerial(p, xs, BitSerial(p, before, c)))
  {
    hide BitSerial;
    BitSerialSplits(p, before + xs, after, c);
    BitSerialSplits(p, before, xs, c);
  }

  /** Any burst of errors no longer than the register is detected, wherever it falls. */
  lemma BurstDetected(p: Word, before: seq<bool>, xs: seq<bool>, ys: seq<bool>, after: seq<bool>, c: Word)
    requires Polynomial(p) && |c| == |p|
    requires |xs| == |ys| <= |p| && xs != ys
    ensures BitSerial(p, before + xs + after, c) != BitSerial(p, before + ys + after, c)
  {
    hide BitSerial, Polynomial;
    var c' := BitSerial(p, before, c);
    BitSerialFramed(p, before, xs, after, c);
    BitSerialFramed(p, before, ys, after, c);
    if BitSerial(p, before + xs + after, c) == BitSerial(p, before + ys + after, c) {
      BitSerialInjective(p, after, BitSerial(p, xs, c'), BitSerial(p, ys, c'));
      ShortMessagesApart(p, xs, ys, c');
    }
  }

  /** A register fed with its own bits becomes zero. */
  lemma OwnBitsCancel(p: Word, c: Word)
    requires Polynomial(p) && |c| == |p|
    ensures BitSerial(p, c, c) == Zeros(|p|)
  {
    hide BitSerial, ShiftN, Xor, Shl, Zeros;
    var n := |p|;
    ShlAll(c);
    XorCancels(c, c);
    ShiftFeeds(p, c, c, n);
    ZeroStays(p, n);
    XorZero(BitSerial(p, c, c));
  }

  lemma ShlAll(c: Word)
    ensures Shl(c, |c|) == Zeros(|c|) && c[..|c|] == c
  {
  }

  lemma {:induction false} ZeroStays(p: Word, n: nat)
    requires Polynomial(p)
    ensures ShiftN(p, Zeros(|p|), n) == Zeros(|p|)
    decreases n
  {
    if n > 0 {
      var z := Zeros(|p|);
      assert Shift(p, z) == z;
      ZeroStays(p, n - 1);
    }
  }

  /** That bound is sharp: one bit more, and the polynomial itself goes unnoticed. */
  lemma BurstBoundIsSharp(p: Word, c: Word)
    requires Polynomial(p) && |c| == |p|
    ensures BitSerial(p, [true] + p, c) == BitSerial(p, Zeros(|p| + 1), c)
  {
    hide BitSerial, Xor, Zeros;
    var m, none, z := [true] + p, Zeros(|p| + 1), Zeros(|p|);
    PolynomialUnseen(p);
    BitSerialLinear(p, m, none, z, c);
    XorZero(m);
    XorZero(c);
    XorZero(BitSerial(p, none, c));
  }

  lemma PolynomialUnseen(p: Word)
    requires Polynomial(p)
    ensures BitSerial(p, [true] + p, Zeros(|p|)) == Zeros(|p|)
  {
    hide Shift, BitIn, Xor;
    FirstOne(p);
    OwnBitsCancel(p, p);
    assert ([true] + p)[1..] == p;
  }

  lemma FirstOne(p: Word)
    requires Polynomial(p)
    ensures BitIn(p, Zeros(|p|), true) == p
  {
    assert Shl(Zeros(|p|)[0 := true], 1) == Zeros(|p|);
    XorZero(p);
  }

  /* ---- Parity ---- */

  /** With an even number of terms in the polynomial (its leading one is not in `p`), a step keeps the
      parity of the register. */
  lemma ShiftKeepsParity(p: Word, c: Word)
    requires Polynomial(p) && |c| == |p| && Odd(p)
    ensures Odd(Shift(p, c)) == Odd(c)
  {
    hide Xor, Shl, Ones;
    ShlOnes(c);
    XorOdd(Shl(c, 1), p);
  }

  lemma ShlOnes(c: Word)
    requires c != []
    ensures Ones(Shl(c, 1)) + (if c[0] then 1 else 0) == Ones(c)
  {
    assert Shl(c, 1) == c[1..] + [false];
    OnesConcat(c[1..], [false]);
  }

  /** So the remainder tells whether the message has an odd number of ones. */
  lemma {:induction false} RemainderParity(p: Word, bits: seq<bool>, c: Word)
    requires Polynomial(p) && |c| == |p| && Odd(p)
    ensures Odd(BitSerial(p, bits, c)) == (Odd(c) != Odd(bits))
  {
    hide Shift;
    if bits != [] {
      var c' := c[0 := c[0] != bits[0]];
      assert c'[1..] == c[1..];
      ShiftKeepsParity(p, c');
      RemainderParity(p, bits[1..], BitIn(p, c, bits[0]));
    }
  }

  /** Any odd number of errors is detected, wherever they fall. */
  lemma OddErrorsDetected(p: Word, xs: seq<bool>, ys: seq<bool>, c: Word)
    requires Polynomial(p) && |c| == |p| && Odd(p) && |xs| == |ys| && Odd(Xor(xs, ys))
    ensures BitSerial(p, xs, c) != BitSerial(p, ys, c)
  {
    hide BitSerial, Xor, Odd;
    RemainderParity(p, xs, c);
    RemainderParity(p, ys, c);
    XorOdd(xs, ys);
  }

  /* ---- The mirrored register ---- */

  /** The step of a register that shifts towards its low end, with the reversed polynomial `q`. */
  function ShiftLow(q: Word, c: Word): (r: Word)
    requires |q| > 0 && |c| == |q|
    ensures |r| == |q|
  {
    if c[|q| - 1] then Xor(Shr(c, 1), q) else Shr(c, 1)
  }

  function BitInLow(q: Word, c: Word, bit: bool): (r: Word)
    requires |q| > 0 && |c| == |q|
    ensures |r| == |q|
  {
    var n := |q| - 1;
    ShiftLow(q, c[n := c[n] != bit])
  }

  /** A CRC computed low end first. */
  function BitSerialLow(q: Word, bits: seq<bool>, c: Word): (r: Word)
    requires |q| > 0 && |c| == |q|
    ensures |r| == |q|
  {
    if bits == [] then c else BitSerialLow(q, bits[1..], BitInLow(q, c, bits[0]))
  }

  lemma {:induction false} MirroredRegister(p: Word, bits: seq<bool>, c: Word)
    requires Polynomial(p) && |c| == |p|
    ensures Reverse(BitSerial(p, bits, c)) == BitSerialLow(Reverse(p), bits, Reverse(c))
  {
    hide BitIn, BitInLow, Reverse;
    if bits != [] {
      MirroredBitIn(p, c, bits[0]);
      MirroredRegister(p, bits[1..], BitIn(p, c, bits[0]));
    }
  }

  lemma MirroredBitIn(p: Word, c: Word, bit: bool)
    requires Polynomial(p) && |c| == |p|
    ensures Reverse(BitIn(p, c, bit)) == BitInLow(Reverse(p), Reverse(c), bit)
  {
    var c' := c[0 := c[0] != bit];
    MirroredShift(p, c');
    assert Reverse(c') == Reverse(c)[|p| - 1 := c'[0]];
    hide Shift, ShiftLow, Reverse;
  }

  lemma MirroredShift(p: Word, c: Word)
    requires Polynomial(p) && |c| == |p|
    ensures Reverse(Shift(p, c)) == ShiftLow(Reverse(p), Reverse(c))
  {
    assert Reverse(Shl(c, 1)) == Shr(Reverse(c), 1);
    ReverseXor(Shl(c, 1), p);
    hide Xor, Shl, Shr;
  }
}
