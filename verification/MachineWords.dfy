/** The machine integers the code works with. */
module MachineWords {
  import Arithmetic

  type Byte = b: nat | b < 256

  const UINT32: nat := 0x1_0000_0000

  const UINT64: nat := 0x1_0000_0000_0000_0000

  /** A sum that was kept in 64 bits goes on as if it had not been. */
  lemma WrapStep(sum: nat, value: nat)
    ensures (sum % UINT64 + value) % UINT64 == (sum + value) % UINT64
  {
    Arithmetic.ReduceSummand(sum, value, UINT64);
  }

  lemma FitsWord(x: nat)
    requires x < UINT64
    ensures x % UINT64 == x
  {
  }
}
