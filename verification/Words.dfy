/** Unsigned 64-bit registers. */
module Words {

  const TWO_TO_THE_64: nat := 0x1_0000_0000_0000_0000

  /** What a register holds after a computation that gives x. */
  function Wrap(x: int): (r: nat)
    ensures r < TWO_TO_THE_64
  {
    x % TWO_TO_THE_64
  }

  lemma WrapSmall(x: int)
    requires -(TWO_TO_THE_64 as int) <= x < TWO_TO_THE_64
    ensures Wrap(x) == if x < 0 then x + TWO_TO_THE_64 else x
  {
  }

  lemma WrapOnce(x: int)
    requires TWO_TO_THE_64 <= x < 2 * TWO_TO_THE_64
    ensures Wrap(x) == x - TWO_TO_THE_64
  {
  }

  lemma WrapTwice(x: int, y: int)
    ensures Wrap(Wrap(x) - y) == Wrap(x - y)
  {
  }
}
