/**
 The size limits, all derived from the excessive block size `ebs` with wrapping
 64-bit arithmetic (message.go, msg_tx.go, msg_block.go).
 */
module Limits {
  import opened Bytes

  const MIN_TX_IN_PAYLOAD := 41
  const MIN_TX_OUT_PAYLOAD := 9
  const MIN_TX_PAYLOAD := 10

  function MaxMessagePayload(ebs: uint64): uint64 {
    (ebs / 1_000_000 * 1024 * 1024 * 2) % TWO64
  }

  function MaxTxInPerMessage(ebs: uint64): uint64 {
    MaxMessagePayload(ebs) / MIN_TX_IN_PAYLOAD + 1
  }

  function MaxTxOutPerMessage(ebs: uint64): uint64 {
    MaxMessagePayload(ebs) / MIN_TX_OUT_PAYLOAD + 1
  }

  function MaxBlockPayload(ebs: uint64): uint64 { ebs }

  function MaxTxPerBlock(ebs: uint64): uint64 {
    MaxBlockPayload(ebs) / MIN_TX_PAYLOAD + 1
  }

  // The script pool: the capacity of its buffers and how many it takes.
  const BUFFER_SIZE := 512
  const POOL_ITEMS := 12500

  // Below this bound the product in MaxMessagePayload does not wrap.
  const WRAP_BOUND: int := 0x800_0000_0000 * 1_000_000

  // The product wraps exactly from the bound on, and once more from twice the bound.
  lemma MessageLimitWraps(ebs: uint64)
    ensures MaxMessagePayload(ebs) ==
              ebs / 1_000_000 * 2_097_152
              - (if ebs < WRAP_BOUND then 0 else if ebs < 2 * WRAP_BOUND then TWO64 else 2 * TWO64)
  {
    var q := ebs / 1_000_000;
    assert ebs < WRAP_BOUND <==> q < 0x800_0000_0000;
    assert ebs < 2 * WRAP_BOUND <==> q < 0x1000_0000_0000;
    assert q * 1024 * 1024 * 2 == q * 2_097_152;
  }

  // The general message limit admits every block-sized payload exactly when the
  // excessive block size is zero, or at least a million below the wrap bound, or in the
  // band above the bound where the wrapped product has caught up again.
  lemma MessageLimitAdmitsBlocks(ebs: uint64)
    ensures MaxMessagePayload(ebs) >= ebs
       <==> || ebs == 0
            || 1_000_000 <= ebs < WRAP_BOUND
            || (ebs < 2 * WRAP_BOUND && ebs / 1_000_000 * 1_097_152 >= TWO64 + ebs % 1_000_000)
  {
    hide MaxMessagePayload;
    MessageLimitWraps(ebs);
    var q := ebs / 1_000_000;
    assert ebs == q * 1_000_000 + ebs % 1_000_000;
  }

  // At the bound no non-empty message is admitted, and at the end of the band all are.
  lemma MessageLimitAround()
    ensures MaxMessagePayload(WRAP_BOUND) == 0
    ensures MaxMessagePayload(2 * WRAP_BOUND - 1_000_000) >= 2 * WRAP_BOUND - 1_000_000
  {
    hide MaxMessagePayload;
    MessageLimitWraps(WRAP_BOUND);
    MessageLimitWraps(2 * WRAP_BOUND - 1_000_000);
  }
}
