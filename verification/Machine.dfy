/** The integer types of the machine, and stock datatypes. */
module Machine {
  import opened Arith

  type Byte = b: int | 0 <= b < 0x100

  const INT_MAX: int := 0x7fff_ffff
  const SIZE_LIMIT: int := 0x1_0000_0000_0000_0000 // one more than a size_t can hold
  const SIZE_MAX: int := SIZE_LIMIT - 1

  lemma {:induction false} PowersMultiply(d: nat, e: nat)
    ensures Pow2(d + e) == Pow2(d) * Pow2(e)
  {
    if e > 0 { PowersMultiply(d, e - 1); }
  }

  lemma Nibble()
    ensures Pow2(4) == 0x10
  {
  }

  /** Both limits are one less than a power of 2. */
  lemma Widths()
    ensures INT_MAX + 1 == Pow2(31) && SIZE_LIMIT == Pow2(64) && SIZE_MAX + 1 == Pow2(64)
  {
    hide Pow2;
    Nibble();
    PowersMultiply(4, 4);
    PowersMultiply(8, 8);
    PowersMultiply(16, 16);
    PowersMultiply(32, 32);
    Pow2Next(31);
  }

  datatype Option<T> = None | Some(value: T)
}
