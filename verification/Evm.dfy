/** Value types of the Ethereum virtual machine, and the result types the models share. */
module Evm {

  const TWO_160: nat := 0x1_0000000000_0000000000_0000000000_0000000000
  const TWO_256: nat := 0x1_00000000_00000000_00000000_00000000_00000000_00000000_00000000_00000000

  type byte = n: nat | n < 256
  type Address = n: nat | n < TWO_160
  type Bytes32 = n: nat | n < TWO_256
  type Uint256 = n: nat | n < TWO_256

  /** A Solidity `string` or `bytes` value held in memory. */
  type Bytes = s: seq<byte> | |s| < TWO_256

  const ZERO_ID: Bytes32 := 0

  /** keccak256, left uninterpreted: every result holds for every such function. */
  type Hash = seq<byte> -> Bytes32

  /** What a call sees of its environment: `msg.sender`, `block.timestamp`, `block.number`. */
  datatype Msg = Msg(sender: Address, timestamp: Uint256, number: Uint256)

  datatype Option<+T> = None | Some(value: T)

  datatype Result<+T, +E> = Success(value: T) | Failure(error: E)

  /** `expiresAt > 0 && expiresAt < block.timestamp`: zero means that the entry never expires. */
  predicate Expired(expiresAt: Uint256, now: Uint256) {
    expiresAt > 0 && expiresAt < now
  }
}
