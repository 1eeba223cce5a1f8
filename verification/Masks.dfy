/** Bitwise and on 32-bit words, and what a masked comparison accepts. */
module Masks {
  import opened Common
  import opened Words

  type Word32 = w: int | 0 <= w < TWO_32

  const ALL_ONES: Word32 := 0xFFFF_FFFF

  /** Bitwise and. */
  function And(a: nat, b: nat): (c: nat)
    ensures c <= a
  {
    if a == 0 then 0
    else 2 * And(a / 2, b / 2) + (if a % 2 == 1 && b % 2 == 1 then 1 else 0)
  }

  /** The lowest bit of an and, and the bits above it. */
  lemma AndBits(a: nat, b: nat)
    ensures And(a, b) / 2 == And(a / 2, b / 2)
    ensures And(a, b) % 2 == if a % 2 == 1 && b % 2 == 1 then 1 else 0
  {
    if a == 0 { assert And(0, b / 2) == 0; }
  }

  lemma SameBits(a: nat, b: nat)
    requires a / 2 == b / 2 && a % 2 == b % 2
    ensures a == b
  {
  }

  lemma {:induction false} AndSelf(m: nat)
    ensures And(m, m) == m
  {
    if m > 0 { AndSelf(m / 2); }
  }

  /** A mask that is part of another sees only what the other lets through. */
  lemma {:induction false} AndPart(w: nat, m: nat, part: nat)
    requires And(part, m) == part
    ensures And(And(w, m), part) == And(w, part)
  {
    if w > 0 {
      AndBits(part, m);
      AndBits(w, m);
      AndBits(w, part);
      AndBits(And(w, m), part);
      AndPart(w / 2, m / 2, part / 2);
      hide And;
      SameBits(And(And(w, m), part), And(w, part));
    } else {
      assert And(0, part) == 0;
    }
  }

  lemma {:induction false} AndOnes(w: nat, n: nat)
    requires w < Pow2(n)
    ensures And(w, Pow2(n) - 1) == w
    decreases n
  {
    if n > 0 {
      AndOnes(w / 2, n - 1);
      AndBits(w, Pow2(n) - 1);
      hide And;
      assert (Pow2(n) - 1) / 2 == Pow2(n - 1) - 1;
      SameBits(And(w, Pow2(n) - 1), w);
    }
  }

  /** A mask that is not part of another looks at a bit the other does not see. */
  lemma {:induction false} UnseenBit(v: nat, m: nat, other: nat, n: nat) returns (w: nat)
    requires v < Pow2(n) && other < Pow2(n) && And(other, m) != other
    ensures w < Pow2(n) && And(w, m) == And(v, m) && And(w, other) != And(v, other)
    decreases n
  {
    assert n > 0 by { assert And(0, m) == 0; }
    HalfBelow(v, n);
    HalfBelow(other, n);
    if other % 2 == 1 && m % 2 == 0 {
      hide And, Pow2;
      w := FlipLowest(v, m, other);
      HalfBelow(w, n);
    } else {
      AndBits(other, m);
      hide And, Pow2;
      if And(other / 2, m / 2) == other / 2 { SameBits(And(other, m), other); }
      var half := UnseenBit(v / 2, m / 2, other / 2, n - 1);
      w := UnseenAbove(v, half, m, other);
      HalfBelow(w, n);
    }
  }

  lemma HalfBelow(v: nat, n: nat)
    requires n > 0
    ensures v < Pow2(n) <==> v / 2 < Pow2(n - 1)
  {
  }

  lemma FlipLowest(v: nat, m: nat, other: nat) returns (w: nat)
    requires other % 2 == 1 && m % 2 == 0
    ensures w / 2 == v / 2 && And(w, m) == And(v, m) && And(w, other) != And(v, other)
  {
    hide And;
    w := if v % 2 == 0 then v + 1 else v - 1;
    assert w / 2 == v / 2 && w % 2 == 1 - v % 2;
    AndBits(v, m);
    AndBits(w, m);
    assert And(w, m) % 2 == And(v, m) % 2 == 0;
    AndBits(v, other);
    AndBits(w, other);
    assert And(w, other) % 2 == w % 2 && And(v, other) % 2 == v % 2;
    SameBits(And(w, m), And(v, m));
  }

  lemma UnseenAbove(v: nat, half: nat, m: nat, other: nat) returns (w: nat)
    requires And(half, m / 2) == And(v / 2, m / 2) && And(half, other / 2) != And(v / 2, other / 2)
    ensures w / 2 == half && And(w, m) == And(v, m) && And(w, other) != And(v, other)
  {
    w := 2 * half + v % 2;
    assert w / 2 == half && w % 2 == v % 2;
    AndBits(v, m);
    AndBits(w, m);
    AndBits(v, other);
    AndBits(w, other);
    hide And;
    SameBits(And(w, m), And(v, m));
  }

  lemma Pow2Of32()
    ensures Pow2(32) == TWO_32
  {
    Pow2Sum(16, 16);
    Pow2Sum(8, 8);
    Pow2Of8();
  }

  lemma {:induction false} Pow2Sum(a: nat, b: nat)
    ensures Pow2(a + b) == Pow2(a) * Pow2(b)
    decreases a
  {
    if a > 0 {
      Pow2Sum(a - 1, b);
      DoubleFirst(Pow2(a - 1), Pow2(b));
      assert Pow2(a + b) == 2 * Pow2(a - 1 + b);
    }
  }

  lemma DoubleFirst(x: nat, y: nat)
    ensures 2 * x * y == 2 * (x * y)
  {
  }

  /** `w` passes for `src` under `mask`. */
  predicate Accepted(src: Word32, mask: Word32, w: Word32) { And(w, mask) == src }

  /** A comparison that accepts any word accepts its own source word. */
  lemma SourceAccepted(src: Word32, mask: Word32, w: Word32)
    requires Accepted(src, mask, w)
    ensures Accepted(src, mask, src)
  {
    AndSelf(mask);
    AndPart(w, mask, mask);
  }

  /** Only the full mask leaves a single word. */
  lemma FullMask(src: Word32, w: Word32)
    requires Accepted(src, ALL_ONES, w)
    ensures w == src
  {
    Pow2Of32();
    AndOnes(w, 32);
    hide And, Pow2;
  }

  lemma OtherWord(src: Word32, mask: Word32) returns (w: Word32)
    requires Accepted(src, mask, src) && mask != ALL_ONES
    ensures w != src && Accepted(src, mask, w)
  {
    Pow2Of32();
    OnesInside(mask, 32);
    var v := UnseenBit(src, mask, ALL_ONES, 32);
    w := v;
    hide And, Pow2;
  }

  /** Only the full mask contains the full mask. */
  lemma {:induction false} OnesInside(m: nat, n: nat)
    requires m < Pow2(n) && m != Pow2(n) - 1
    ensures And(Pow2(n) - 1, m) != Pow2(n) - 1
    decreases n
  {
    assert n > 0;
    AndBits(Pow2(n) - 1, m);
    hide And;
    assert (Pow2(n) - 1) / 2 == Pow2(n - 1) - 1;
    if m / 2 != Pow2(n - 1) - 1 { OnesInside(m / 2, n - 1); }
  }

  /** Every word accepted under the first comparison is accepted under the second: the second mask
      looks at no other bit, and asks for the same values. */
  predicate Implies(src: Word32, mask: Word32, src': Word32, mask': Word32) {
    And(mask', mask) == mask' && And(src, mask') == src'
  }

  lemma ImpliesAccepted(src: Word32, mask: Word32, src': Word32, mask': Word32, w: Word32)
    requires Implies(src, mask, src', mask') && Accepted(src, mask, w)
    ensures Accepted(src', mask', w)
  {
    AndPart(w, mask, mask');
  }

  lemma NotImplied(src: Word32, mask: Word32, src': Word32, mask': Word32) returns (w: Word32)
    requires Accepted(src, mask, src) && !Implies(src, mask, src', mask')
    ensures Accepted(src, mask, w) && !Accepted(src', mask', w)
  {
    w := src;
    if And(src, mask') == src' {
      Pow2Of32();
      var v := UnseenBit(src, mask, mask', 32);
      w := v;
      hide And, Pow2;
    }
  }

  /** The bitwise condition says just that. */
  lemma ImpliesMeans(src: Word32, mask: Word32, src': Word32, mask': Word32)
    requires Accepted(src, mask, src)
    ensures Implies(src, mask, src', mask')
            <==> forall w: Word32 :: Accepted(src, mask, w) ==> Accepted(src', mask', w)
  {
    hide Accepted;
    if Implies(src, mask, src', mask') {
      forall w: Word32 | Accepted(src, mask, w)
        ensures Accepted(src', mask', w)
      {
        ImpliesAccepted(src, mask, src', mask', w);
      }
    } else {
      var w := NotImplied(src, mask, src', mask');
    }
  }
}
