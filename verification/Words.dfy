/** Machine words, page arithmetic and the outcome of operations that may panic. */
module Words {
  const PAGE_SIZE := 4096
  const TWO_TO_THE_20 := 0x10_0000
  const TWO_TO_THE_32 := 0x1_0000_0000

  /** A `uint32_t`. */
  type Word = w: int | 0 <= w < 0x1_0000_0000

  /** A `uint8_t`. */
  type Byte = b: int | 0 <= b < 256

  /** An operation either completes or ends in `panic`, which halts the machine. */
  datatype Outcome<+T> = Done(value: T) | Panic

  /** Reduction to 32 bits, as C does for every `uint32_t` result; one turn around the range needs no division. */
  function Wrap32(x: int): Word {
    if 0 <= x < TWO_TO_THE_32 then x
    else if TWO_TO_THE_32 <= x < 2 * TWO_TO_THE_32 then x - TWO_TO_THE_32
    else if -TWO_TO_THE_32 <= x < 0 then x + TWO_TO_THE_32
    else x % TWO_TO_THE_32
  }

  lemma WrapIsMod(x: int)
    ensures Wrap32(x) == x % TWO_TO_THE_32
  {
  }

  lemma WrapAdd(a: int, b: int)
    ensures Wrap32(Wrap32(a) + b) == Wrap32(a + b)
  {
    WrapIsMod(a);
    WrapIsMod(a + b);
    WrapIsMod(Wrap32(a) + b);
  }

  // ---------- powers and bitwise or ----------

  function Power(base: nat, n: nat): nat {
    if n == 0 then 1 else base * Power(base, n - 1)
  }

  lemma TwoToThe32()
    ensures Power(2, 12) == PAGE_SIZE && Power(2, 32) == TWO_TO_THE_32
  {
    assert Power(2, 8) == 256;
    assert Power(2, 16) == 65536;
    assert Power(2, 24) == 0x100_0000;
  }

  lemma MultipleAtLeast(k: int, d: nat)
    ensures k >= 1 ==> k * d >= d
    ensures k <= -1 ==> k * d <= -1 * d
  {
  }

  /** Quotient and remainder are unique. */
  lemma DivisionIs(x: nat, d: nat, q: nat, r: nat)
    requires r < d && x == q * d + r
    ensures x / d == q && x % d == r
  {
    var k := x / d - q;
    assert x == (x / d) * d + x % d;
    assert k * d == (x / d) * d - q * d;
    MultipleAtLeast(k, d);
  }

  /** `a | b`, bit by bit. */
  function Or(a: nat, b: nat): nat {
    if a == 0 || b == 0 then a + b
    else if a % 2 == 1 || b % 2 == 1 then 2 * Or(a / 2, b / 2) + 1
    else 2 * Or(a / 2, b / 2)
  }

  lemma {:induction false} OrIsOdd(a: nat, b: nat)
    ensures Or(a, b) % 2 == 1 <==> a % 2 == 1 || b % 2 == 1
  {
    if a != 0 && b != 0 {
      ParityOfDouble(Or(a / 2, b / 2));
    }
  }

  lemma {:induction false} OrHalves(a: nat, b: nat)
    ensures Or(2 * a, b) / 2 == Or(a, b / 2)
  {
  }

  lemma ParityOfDouble(x: nat)
    ensures 2 * x % 2 == 0 && (2 * x + 1) % 2 == 1
  {
  }

  lemma {:induction false} OrBelow(a: nat, b: nat, n: nat)
    requires a < Power(2, n) && b < Power(2, n)
    ensures Or(a, b) < Power(2, n)
  {
    if a != 0 && b != 0 {
      OrBelow(a / 2, b / 2, n - 1);
    }
  }

  lemma OrIsWord(a: Word, b: Word)
    ensures Or(a, b) < TWO_TO_THE_32
  {
    TwoToThe32();
    OrBelow(a, b, 32);
  }

  /** An OR of disjoint bit fields is a sum. */
  lemma {:induction false} OrIsSum(a: nat, b: nat, n: nat)
    requires b < Power(2, n)
    ensures Or(a * Power(2, n), b) == a * Power(2, n) + b
  {
    if a * Power(2, n) != 0 && b != 0 {
      var p := a * Power(2, n - 1);
      assert a * Power(2, n) == 2 * p;
      OrIsSum(a, b / 2, n - 1);
    }
  }
}
