/** Machine words as their bits, most significant first; the width is the length, so truncation and
    shifts out of the word are explicit. */
module Words {

  type Word = seq<bool>

  type Byte = b: Word | |b| == 8 witness [false, false, false, false, false, false, false, false]

  function Zeros(n: nat): (w: Word)
    ensures |w| == n && forall i :: 0 <= i < n ==> !w[i]
  {
    seq(n, _ => false)
  }

  function Xor(a: Word, b: Word): (w: Word)
    requires |a| == |b|
    ensures |w| == |a| && forall i :: 0 <= i < |w| ==> w[i] == (a[i] != b[i])
  {
    seq(|a|, i requires 0 <= i < |a| => a[i] != b[i])
  }

  /** `w << n`, keeping the width. */
  function Shl(w: Word, n: nat): (s: Word)
    requires n <= |w|
    ensures |s| == |w|
  {
    w[n..] + Zeros(n)
  }

  /** `w >> n` of an unsigned word. */
  function Shr(w: Word, n: nat): (s: Word)
    requires n <= |w|
    ensures |s| == |w|
  {
    Zeros(n) + w[..|w| - n]
  }

  /** The low `n` bits, as a cast or a mask of `n` ones leaves them. */
  function Low(w: Word, n: nat): (s: Word)
    requires n <= |w|
    ensures |s| == n
  {
    w[|w| - n..]
  }

  function Reverse(w: Word): (r: Word)
    ensures |r| == |w| && forall i :: 0 <= i < |r| ==> r[i] == w[|w| - 1 - i]
  {
    seq(|w|, i requires 0 <= i < |w| => w[|w| - 1 - i])
  }

  /** The unsigned value of a word. */
  function Value(w: Word): nat {
    if w == [] then 0 else 2 * Value(w[..|w| - 1]) + (if w[|w| - 1] then 1 else 0)
  }

  /** The word of `n` bits that an integer is stored as. */
  function FromValue(v: nat, n: nat): (w: Word)
    ensures |w| == n
  {
    if n == 0 then [] else FromValue(v / 2, n - 1) + [v % 2 == 1]
  }

  /** A constant written in hexadecimal digits. */
  function Hex(digits: seq<nat>): (w: Word)
    ensures |w| == 4 * |digits|
  {
    if digits == [] then [] else Nibble(digits[0]) + Hex(digits[1..])
  }

  function Nibble(d: nat): (w: Word)
    ensures |w| == 4
  {
    [d / 8 % 2 == 1, d / 4 % 2 == 1, d / 2 % 2 == 1, d % 2 == 1]
  }

  /** A hexadecimal constant is odd when its last digit is. */
  lemma {:induction false} LastDigit(digits: seq<nat>)
    requires digits != []
    ensures var w := Hex(digits); w[|w| - 1] == (digits[|digits| - 1] % 2 == 1)
  {
    hide Nibble;
    var first, rest := Nibble(digits[0]), Hex(digits[1..]);
    assert Hex(digits) == first + rest;
    if |digits| == 1 {
      assert rest == [];
      LastOfNibble(digits[0]);
    } else {
      LastDigit(digits[1..]);
      assert Hex(digits)[|first + rest| - 1] == rest[|rest| - 1];
    }
  }

  lemma LastOfNibble(d: nat)
    ensures Nibble(d)[3] == (d % 2 == 1)
  {
  }

  function Pow2(n: nat): nat { if n == 0 then 1 else 2 * Pow2(n - 1) }

  lemma Pow2Of8()
    ensures Pow2(8) == 256
  {
    assert Pow2(8) == 2 * Pow2(7) && Pow2(7) == 2 * Pow2(6) && Pow2(6) == 2 * Pow2(5) && Pow2(5) == 2 * Pow2(4);
  }

  lemma {:induction false} FromValueOfValue(w: Word)
    ensures Value(w) < Pow2(|w|)
    ensures FromValue(Value(w), |w|) == w
  {
    if w != [] {
      FromValueOfValue(w[..|w| - 1]);
      assert w == w[..|w| - 1] + [w[|w| - 1]];
    }
  }

  /** Zeros above do not change a stored integer. */
  lemma {:induction false} FromValueWider(v: nat, n: nat, extra: nat)
    requires v < Pow2(n)
    ensures FromValue(v, n + extra) == Zeros(extra) + FromValue(v, n)
    decreases n
  {
    if n == 0 {
      FromZero(extra);
    } else {
      FromValueWider(v / 2, n - 1, extra);
    }
  }

  lemma {:induction false} FromZero(n: nat)
    ensures FromValue(0, n) == Zeros(n)
  {
    if n > 0 {
      FromZero(n - 1);
    }
  }

  lemma XorZero(w: Word)
    ensures Xor(w, Zeros(|w|)) == w && Xor(Zeros(|w|), w) == w
  {
  }

  lemma XorCancels(a: Word, b: Word)
    requires |a| == |b|
    ensures Xor(a, a) == Zeros(|a|)
    ensures Xor(Xor(a, b), b) == a
    ensures Xor(a, b) == Zeros(|a|) ==> a == b
  {
    assert Xor(a, b) == Zeros(|a|) ==> forall i :: 0 <= i < |a| ==> !Xor(a, b)[i];
  }

  lemma ReverseTwice(w: Word)
    ensures Reverse(Reverse(w)) == w
  {
  }

  lemma ReverseXor(a: Word, b: Word)
    requires |a| == |b|
    ensures Reverse(Xor(a, b)) == Xor(Reverse(a), Reverse(b))
  {
  }

  lemma ReverseConcat(a: Word, b: Word)
    ensures Reverse(a + b) == Reverse(b) + Reverse(a)
  {
  }

  /** How many bits are set. */
  function Ones(w: seq<bool>): nat {
    if w == [] then 0 else (if w[0] then 1 else 0) + Ones(w[1..])
  }

  predicate Odd(w: seq<bool>) { Ones(w) % 2 == 1 }

  lemma {:induction false} OnesConcat(a: seq<bool>, b: seq<bool>)
    ensures Ones(a + b) == Ones(a) + Ones(b)
  {
    if a == [] {
      assert a + b == b;
    } else {
      assert (a + b)[1..] == a[1..] + b;
      OnesConcat(a[1..], b);
    }
  }

  lemma {:induction false} XorOdd(a: seq<bool>, b: seq<bool>)
    requires |a| == |b|
    ensures Odd(Xor(a, b)) == (Odd(a) != Odd(b))
  {
    if a != [] {
      assert Xor(a, b)[1..] == Xor(a[1..], b[1..]);
      XorOdd(a[1..], b[1..]);
    }
  }

  lemma OnesHex(digits: seq<nat>)
    requires digits != []
    ensures Ones(Hex(digits)) == OnesIn(digits[0]) + Ones(Hex(digits[1..]))
  {
    hide Nibble;
    assert Hex(digits) == Nibble(digits[0]) + Hex(digits[1..]);
    OnesConcat(Nibble(digits[0]), Hex(digits[1..]));
    OnesNibble(digits[0]);
  }

  function OnesIn(d: nat): nat { d / 8 % 2 + d / 4 % 2 + d / 2 % 2 + d % 2 }

  lemma OnesNibble(d: nat)
    ensures Ones(Nibble(d)) == OnesIn(d)
  {
    var w := Nibble(d);
    assert w[1..][1..] == w[2..] && w[2..][1..] == w[3..] && w[3..][1..] == [];
    assert Ones(w[3..]) == d % 2;
    assert Ones(w[2..]) == d / 2 % 2 + d % 2;
  }
}
