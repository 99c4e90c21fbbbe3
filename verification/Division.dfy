/** The 64-bit division of the TinyCC run-time support. */
module Division {
  import opened Spans

  const TWO64: nat := 0x1_0000_0000_0000_0000

  ghost predicate IsPow2(b: nat) { b == 1 || (b > 1 && b % 2 == 0 && IsPow2(b / 2)) }

  /** `q | bit` for a single bit. */
  function SetBit(q: nat, bit: nat): nat
    requires bit > 0
  {
    if q / bit % 2 == 1 then q else q + bit
  }

  /** A shift left in 64 bits. */
  function Shl64(x: nat): nat { x * 2 % TWO64 }

  /** The bit is new if everything below and at it is clear. */
  lemma NewBit(q: nat, bit: nat)
    requires bit > 0 && q % (2 * bit) == 0
    ensures SetBit(q, bit) == q + bit && (q + bit) % bit == 0 && q % bit == 0
  {
    var m := q / (2 * bit);
    assert q == 2 * bit * m;
    assert q == bit * (2 * m);
    DivExact(bit, 2 * m);
    assert q + bit == bit * (2 * m + 1);
    DivExact(bit, 2 * m + 1);
  }

  lemma DivExact(b: nat, m: nat)
    requires b > 0
    ensures b * m / b == m && b * m % b == 0
  {
    SpanIsProduct(m, b);
    SpanOf(b * m, b);
    SpanUnique(b * m / b, b * m % b, m, 0, b);
  }

  /** Halving divisor and bit together. */
  lemma Halve(d: nat, d0: nat, bit: nat)
    requires d == d0 * bit && bit > 1 && IsPow2(bit)
    ensures d / 2 == d0 * (bit / 2) && d == 2 * (d / 2) && IsPow2(bit / 2) && bit == 2 * (bit / 2)
  {
    assert bit == 2 * (bit / 2);
    assert d0 * (2 * (bit / 2)) == 2 * (d0 * (bit / 2));
  }

  lemma Accumulate(q: nat, bit: nat, d0: nat)
    ensures (q + bit) * d0 == q * d0 + d0 * bit
  {
  }

  lemma TwoPow2(b: nat)
    requires IsPow2(b)
    ensures IsPow2(2 * b)
  {
    assert 2 * b / 2 == b;
  }

  lemma ScaleStep(d: nat, d0: nat, bit: nat)
    requires d == d0 * bit && d < TWO64 / 2 && IsPow2(bit) && 0 < bit <= d
    ensures Shl64(d) == 2 * d == d0 * Shl64(bit) && Shl64(bit) == 2 * bit && IsPow2(2 * bit)
  {
    TwoPow2(bit);
    ShlExact(d);
    ShlExact(bit);
    Twice(d0, bit);
  }

  lemma ShlExact(x: nat)
    requires x < TWO64 / 2
    ensures Shl64(x) == 2 * x
  {
  }

  lemma Twice(a: nat, b: nat)
    ensures a * (2 * b) == 2 * (a * b)
  {
  }

  /** The scaling loop: the divisor is shifted up beside a counting bit, losing nothing. */
  method ScaleUp(n: nat, d0: nat) returns (d: nat, bit: nat)
    requires n < TWO64 && 0 < d0 < TWO64
    ensures d == d0 * bit < TWO64 && IsPow2(bit) && n < 2 * d
  {
    d, bit := d0, 1;
    while d < TWO64 / 2 && d < n
      invariant d == d0 * bit < TWO64 && IsPow2(bit) && 0 < bit <= d
      decreases TWO64 - d
    {
      ScaleStep(d, d0, bit);
      d, bit := Shl64(d), Shl64(bit);
    }
  }

  /** `udivmod64`: quotient and remainder of any two 64-bit numbers; both 0 when dividing by 0. */
  method UDivMod64(n0: nat, d0: nat) returns (q: nat, r: nat)
    requires n0 < TWO64 && d0 < TWO64
    ensures d0 == 0 ==> q == 0 && r == 0
    ensures d0 > 0 ==> n0 == q * d0 + r && r < d0
  {
    if d0 == 0 {
      return 0, 0;
    }
    var d, bit := ScaleUp(n0, d0);
    var n: nat := n0;
    q := 0;
    while bit > 0
      invariant n0 == q * d0 + n
      invariant if bit > 0 then d == d0 * bit && n < 2 * d && IsPow2(bit) && q % (2 * bit) == 0 else n < d0
      decreases bit
    {
      NewBit(q, bit);
      Accumulate(q, bit, d0);
      if n >= d {
        n := n - d;
        q := SetBit(q, bit);
      }
      if bit > 1 { Halve(d, d0, bit); }
      d, bit := d / 2, bit / 2;
    }
    r := n;
  }
}
