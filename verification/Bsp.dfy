/** The result codes of the board-support calls (bsp_entity_enum.h): one bit each. */
module Bsp {
  import opened Bits

  type Rval = nat

  const OK: Rval := 0
  const UNKNOWN_ENTITY: Rval := 1
  const UNKNOWN_ATTRIBUTE: Rval := 2
  const INVALID_INSTANCE: Rval := 4
  const CFG_CORRUPTED: Rval := 8
  const DEVICE_ERROR: Rval := 16
  const SPECIFIED_SIZE_INVALID: Rval := 128
  const UNSUPPORTED_METHOD: Rval := 1024
  const UNKNOWN_HARDWARE_VERSION: Rval := 2048
  const QUERY_UNAVAILABLE: Rval := 4096
  const INVALID_PARAMETER: Rval := 16384
  const REQUEST_DENIED: Rval := 65536
  const BOARD_CONFIG_INVALID: Rval := 262144

  /** The header's numbers: each code is a bit of its own, so that codes can be or-ed together and told apart again. */
  lemma CodesAreBits()
    ensures OK == 0
    ensures [UNKNOWN_ENTITY, UNKNOWN_ATTRIBUTE, INVALID_INSTANCE, CFG_CORRUPTED, DEVICE_ERROR] ==
      [Pow2(0), Pow2(1), Pow2(2), Pow2(3), Pow2(4)]
    ensures [SPECIFIED_SIZE_INVALID, UNSUPPORTED_METHOD, UNKNOWN_HARDWARE_VERSION, QUERY_UNAVAILABLE] ==
      [Pow2(7), Pow2(10), Pow2(11), Pow2(12)]
    ensures [INVALID_PARAMETER, REQUEST_DENIED, BOARD_CONFIG_INVALID] == [Pow2(14), Pow2(16), Pow2(18)]
  {
    Pow2Values();
    Pow2Sum(8, 8);
    Pow2Sum(8, 10);
  }
}
