/** Arithmetic modulo 2^64, where the code relies on it or can run into it. */
module Words {
  const WORD: int := 0x1_0000_0000_0000_0000

  /** What 64 bits hold of a number. */
  function Wrap(x: int): (w: nat)
    ensures w < WORD
  {
    x % WORD
  }
}
