/** Machine words of the ring buffer (`uintptr_t`, taken as 64 bits) and the
    two bitwise operations it applies to owner tags, defined bit by bit on
    the integers. */
module Words {

  const WORD_LIMIT: nat := 0x1_0000_0000_0000_0000

  /** A 64-bit unsigned word. */
  type Word = x: nat | x < WORD_LIMIT

  /** Bitwise OR: the lowest bit is set when it is set in either operand. */
  function Or(a: nat, b: nat): nat
    decreases a + b
  {
    if a == 0 && b == 0 then 0
    else 2 * Or(a / 2, b / 2) + (if a % 2 == 1 || b % 2 == 1 then 1 else 0)
  }

  /** Bitwise AND: the lowest bit is set when it is set in both operands. */
  function And(a: nat, b: nat): nat
    decreases a + b
  {
    if a == 0 && b == 0 then 0
    else 2 * And(a / 2, b / 2) + (if a % 2 == 1 && b % 2 == 1 then 1 else 0)
  }

  /** OR splits into the OR of the higher bits and the OR of the lowest. */
  lemma OrStep(a: nat, b: nat)
    ensures Or(a, b) / 2 == Or(a / 2, b / 2)
    ensures Or(a, b) % 2 == if a % 2 == 1 || b % 2 == 1 then 1 else 0
  {
  }

  /** AND splits likewise. */
  lemma AndStep(a: nat, b: nat)
    ensures And(a, b) / 2 == And(a / 2, b / 2)
    ensures And(a, b) % 2 == if a % 2 == 1 && b % 2 == 1 then 1 else 0
  {
  }

  /** Two numbers with the same lowest bit and the same higher bits are equal. */
  lemma SameBits(x: nat, y: nat)
    requires x / 2 == y / 2 && x % 2 == y % 2
    ensures x == y
  {
  }

  /** 0 is the identity of OR, on either side. */
  lemma {:induction false} OrZero(a: nat)
    ensures Or(a, 0) == a && Or(0, a) == a
    decreases a
  {
    if a != 0 {
      OrZero(a / 2);
    }
  }

  /** AND with 0 is 0. */
  lemma {:induction false} AndZero(a: nat)
    ensures And(a, 0) == 0
    decreases a
  {
    if a != 0 {
      AndZero(a / 2);
    }
  }

  /** OR is commutative. */
  lemma {:induction false} OrCommutes(a: nat, b: nat)
    ensures Or(a, b) == Or(b, a)
    decreases a + b
  {
    if a + b != 0 {
      OrCommutes(a / 2, b / 2);
    }
  }

  /** OR is associative. */
  lemma {:induction false} OrAssociates(a: nat, b: nat, c: nat)
    ensures Or(Or(a, b), c) == Or(a, Or(b, c))
    decreases a + b + c
  {
    if a + b + c != 0 {
      OrAssociates(a / 2, b / 2, c / 2);
      OrStep(a, b);
      OrStep(b, c);
      OrStep(Or(a, b), c);
      OrStep(a, Or(b, c));
      SameBits(Or(Or(a, b), c), Or(a, Or(b, c)));
    }
  }

  /** t has all its bits in Or(a, t). */
  lemma {:induction false} AndOrAbsorbs(a: nat, t: nat)
    ensures And(Or(a, t), t) == t
    decreases a + t
  {
    if a + t != 0 {
      AndOrAbsorbs(a / 2, t / 2);
      OrStep(a, t);
      AndStep(Or(a, t), t);
      SameBits(And(Or(a, t), t), t);
    }
  }

  /** ORing more bits in keeps every bit that was there. */
  lemma {:induction false} AndOrKeeps(a: nat, b: nat, t: nat)
    requires And(a, t) == t
    ensures And(Or(a, b), t) == t
    decreases a + b + t
  {
    if a + b + t != 0 {
      AndStep(a, t);
      AndOrKeeps(a / 2, b / 2, t / 2);
      OrStep(a, b);
      AndStep(Or(a, b), t);
      SameBits(And(Or(a, b), t), t);
    }
  }

  /** m is a power of 2. */
  predicate PowerOfTwo(m: nat)
    decreases m
  {
    m == 1 || (m >= 2 && m % 2 == 0 && PowerOfTwo(m / 2))
  }

  /** Twice a power of 2 is a power of 2. */
  lemma Twice(m: nat)
    requires PowerOfTwo(m)
    ensures PowerOfTwo(2 * m)
  {
    assert (2 * m) / 2 == m;
  }

  /** The square of a power of 2 is a power of 2. */
  lemma {:induction false} SquarePowerOfTwo(m: nat)
    requires PowerOfTwo(m)
    ensures PowerOfTwo(m * m)
    decreases m
  {
    if m > 1 {
      var k := m / 2;
      SquarePowerOfTwo(k);
      Quadruple(k);
      Twice(k * k);
      Twice(2 * (k * k));
    }
  }

  /** (2k)(2k) = 2(2(k k)). */
  lemma Quadruple(k: nat)
    ensures (2 * k) * (2 * k) == 2 * (2 * (k * k))
  {
  }

  /** 2^64 is a power of 2. */
  lemma WordLimitPowerOfTwo()
    ensures PowerOfTwo(WORD_LIMIT)
  {
    assert PowerOfTwo(2);
    SquarePowerOfTwo(2);
    SquarePowerOfTwo(4);
    SquarePowerOfTwo(16);
    SquarePowerOfTwo(0x100);
    SquarePowerOfTwo(0x1_0000);
    SquarePowerOfTwo(0x1_0000_0000);
  }

  /** The OR of two numbers below a power of 2 is below it. */
  lemma {:induction false} OrBelow(a: nat, b: nat, m: nat)
    requires PowerOfTwo(m) && a < m && b < m
    ensures Or(a, b) < m
    decreases m
  {
    if m > 1 {
      OrBelow(a / 2, b / 2, m / 2);
    }
  }

  /** The OR of two words, as a word. */
  function WordOr(a: Word, b: Word): (r: Word)
    ensures r == Or(a, b)
  {
    WordLimitPowerOfTwo();
    OrBelow(a, b, WORD_LIMIT);
    Or(a, b)
  }

  /** `(a & t) == t`: every bit of t is set in a. */
  predicate Covers(a: Word, t: Word) {
    And(a, t) == t
  }
}
