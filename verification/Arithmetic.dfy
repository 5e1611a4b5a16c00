/** The few facts about products and quotients that positional numerals and rotations rest on. */
module Arithmetic {

  lemma {:induction false} Distribute(n: int, a: int, b: int)
    ensures n * (a - b) == n * a - n * b
  {
  }

  lemma Small(n: int, e: int)
    requires -n < n * e < n
    ensures e == 0
  {
  }

  /** A digit and a multiple of the base can be told apart again. */
  lemma DivMod(d: nat, q: nat, base: nat)
    requires d < base
    ensures (d + base * q) % base == d && (d + base * q) / base == q
  {
    var n := d + base * q;
    Distribute(base, q, n / base);
    assert base * (q - n / base) == n % base - d;
    Small(base, q - n / base);
  }
}
