/** 32-bit unsigned arithmetic. */
module Words {
  const WORD: int := 0x1_0000_0000

  /** A uint32. */
  type Word = x: int | 0 <= x < WORD

  /** The value as a uint32. */
  function U32(x: int): (r: int)
    ensures 0 <= r < WORD
  {
    x % WORD
  }

  lemma Wraps(x: int, k: int)
    ensures U32(x + k * WORD) == U32(x)
  {
    var q, r := x / WORD, x % WORD;
    assert x + k * WORD == (q + k) * WORD + r;
  }

  /** Reducing early makes no difference to a sum. */
  lemma U32Adds(x: int, y: int)
    ensures U32(U32(x) + y) == U32(x + y)
  {
    Wraps(U32(x) + y, x / WORD);
    assert U32(x) + y + (x / WORD) * WORD == x + y;
  }
}
