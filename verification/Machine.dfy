/** The C integer ranges and the IOS error codes that the modelled files share. */
module Machine {
  type uint8 = n: nat | n < 0x100
  type uint16 = n: nat | n < 0x1_0000
  type uint32 = n: nat | n < 0x1_0000_0000

  /** The members of IOSError that the modelled code returns. */
  datatype IosError = Ok | Exists | Invalid | Max | NotReady | FailInternal

  datatype Option<+T> = None | Some(value: T)
}
