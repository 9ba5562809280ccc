/** Limits of the 24-bit sequence numbers, shared by node and gateway. */
module Protocol {

  const SEQ_SPACE: nat := 0x100_0000

  /** SPS_SEQ_MAX: the node stops here, because SEQ must not wrap under one key. */
  const SEQ_MAX: nat := 0xFF_FFF0
}
