/** Wrapping arithmetic of a 64-bit `AtomicUsize`. */
module Words {

  /** 2^64, the number of values of a 64-bit word. */
  const MODULUS: int := 0x1_0000_0000_0000_0000

  function Wrap(x: int): (r: nat)
    ensures r < MODULUS
    ensures 0 <= x < MODULUS ==> r == x
  {
    x % MODULUS
  }

  /** `fetch_add(1)` and `fetch_sub(1)` on a wrapped value are the wrapped `+ 1` and `- 1`. */
  lemma WrapStep(x: int)
    ensures Wrap(Wrap(x) + 1) == Wrap(x + 1)
    ensures Wrap(Wrap(x) - 1) == Wrap(x - 1)
  {
  }

  /** Which signed values in one and a half turns of the counter read back as a given small word. */
  lemma WrapTests(x: int)
    requires -MODULUS < x < MODULUS
    ensures Wrap(x) == 0 <==> x == 0
    ensures Wrap(x) == 1 <==> x == 1 || x == 1 - MODULUS
  {
  }
}
