/** Ring indices of SA/saio/cmc.c: sizes are powers of two, so that an index is wrapped by a mask. */
module CmcIndex {
  import opened Masks

  /** The index after i. */
  function After(i: nat, size: nat): nat
    requires size > 0
  {
    And(i + 1, size - 1)
  }

  lemma AfterWraps(i: nat, size: nat)
    requires PowerOfTwo(size) && i < size
    ensures After(i, size) == if i + 1 == size then 0 else i + 1
  {
    hide And, Pow2;
    var k: nat :| size == Pow2(k);
    MaskIsModulo(i + 1, k);
  }

  /** The number of entries between two indices, as `ringput` computes it. */
  function Between(rd: nat, wr: nat, size: nat): int {
    if wr - rd < 0 then wr - rd + size else wr - rd
  }
}
