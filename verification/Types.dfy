/** Values shared by every layer of the channel model. */
module Types {
  type byte = b: nat | b < 0x100
  type u32 = n: nat | n < 0x1_0000_0000
  type u64 = n: nat | n < 0x1_0000_0000_0000_0000
  const U64_MAX: u64 := 0xFFFF_FFFF_FFFF_FFFF

  // It is the greatest number of eight bytes.
  lemma GreatestU64(n: u64)
    ensures n <= U64_MAX == 18446744073709551615
  {}

  // A 32-byte identifier. Byte arrays compare lexicographically, which is the
  // order of the numbers they spell in big-endian notation.
  type Id = n: nat | n < 0x1_0000000000000000_0000000000000000_0000000000000000_0000000000000000
  type NodeId = Id
  type EnvelopeId = Id
  type ChannelId = Id

  // The `EnvelopeId::new(0)` of a node that has sent nothing.
  const NO_ENVELOPE: EnvelopeId := 0

  // A public signing key, identified with its fingerprint.
  datatype PubKey = PubKey(fingerprint: NodeId)

  function ComputeId(key: PubKey): NodeId {
    key.fingerprint
  }

  datatype Option<+T> = None | Some(value: T)

  datatype Result<+T, +E> = Success(value: T) | Failure(error: E) {
    predicate IsFailure() {
      Failure?
    }

    function PropagateFailure<U>(): Result<U, E>
      requires Failure?
    {
      Failure(error)
    }

    function Extract(): T
      requires Success?
    {
      value
    }
  }

  datatype ChannelError =
    | ClientMax(max: nat)
    | MissingFromSender(node: NodeId, have: u64, missing: u64)
    | SequenceOverflow
    | ChannelUnreachable
    | NodeExists
    | UnknownNode
    | AlreadyReceived

  datatype ChatError = UnexpectedId | MaxUsersExceeded | Uninitialized | Unauthorized | ChatUnreachable

  datatype StorageError = OutOfBounds | CorruptDB | SlabFull | OutOfOrder | StorageUnreachable | PostcardError

  datatype ClientError =
    | ChannelFault(channel: ChannelError)
    | ChatFault(chat: ChatError)
    | StorageFault(storage: StorageError)
    | SerializationFault
    | CryptoFault
    | MessageTooLarge
    | StringTooLarge
    | MessageIndexOutOfBounds
    | Unreachable
}
