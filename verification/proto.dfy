/** The ledger's protobuf messages (`ironcoin_pb`) as immutable values.
    Their wire encoding is abstract: a `Serializer` maps a commitment to the
    bytes that every party signs. Being a function, it is deterministic. */
module Proto {
  import opened Types

  datatype Transfer = Transfer(opIndex: u32, tokens: u64, sourcePk: Bytes, destinationPk: Bytes)

  datatype Commitment = Commitment(transfers: seq<Transfer>, bountyPk: Bytes, bounty: u64)

  datatype DetachedSignature = DetachedSignature(publicKey: Bytes, payload: Bytes)

  datatype Transaction = Transaction(commit: Commitment, signatures: seq<DetachedSignature>)

  /** `Commitment::new()`: every field at its protobuf default. */
  const EmptyCommitment: Commitment := Commitment([], [], 0)

  /** `write_to_bytes` on a commitment. */
  type Serializer = Commitment -> Bytes
}
