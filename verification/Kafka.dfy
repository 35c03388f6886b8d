/** The port's domain types (internal/kafka/types.go), with Go's byte strings as
    sequences of bytes and times as nanoseconds since the Unix epoch. */
module Kafka {
  newtype Byte = x: int | 0 <= x < 256
  type Bytes = seq<Byte>

  datatype Option<+T> = None | Some(value: T)

  // The port's error kinds, plus the service layer's codes the model reports.
  datatype Error =
    | Broker | NotFound | AlreadyExists | GroupActive | Timeout | Unavailable
    | Validation | BoundExceeded | PartitionMismatch

  datatype Result<+T> = Ok(value: T) | Err(error: Error)

  datatype Header = Header(key: string, value: Bytes)

  datatype Record = Record(
    topic: string, partition: int, offset: int, timestamp: int,
    key: Bytes, value: Bytes, headers: seq<Header>)

  datatype TopicPartition = TopicPartition(topic: string, partition: int)

  // Go's zero time.Time, midnight of 1 January of the year 1, in nanoseconds.
  const ZERO_TIME := -62135596800 * 1000000000
  const NANOS_PER_MILLI := 1000000

  /** Go's int32(x) and int16(x) conversions keep the low bits as a signed number. */
  function ToInt32(x: int): (r: int)
    ensures -0x8000_0000 <= r < 0x8000_0000
    ensures -0x8000_0000 <= x < 0x8000_0000 ==> r == x
  {
    (x + 0x8000_0000) % 0x1_0000_0000 - 0x8000_0000
  }

  function ToInt16(x: int): (r: int)
    ensures -0x8000 <= r < 0x8000
    ensures -0x8000 <= x < 0x8000 ==> r == x
  {
    (x + 0x8000) % 0x1_0000 - 0x8000
  }

  // int64 arithmetic wraps the same way.
  function ToInt64(x: int): (r: int)
    ensures -0x8000_0000_0000_0000 <= r < 0x8000_0000_0000_0000
    ensures r == x <==> -0x8000_0000_0000_0000 <= x < 0x8000_0000_0000_0000
  {
    (x + 0x8000_0000_0000_0000) % 0x1_0000_0000_0000_0000 - 0x8000_0000_0000_0000
  }

  function RawSize(r: Record): nat {
    |r.key| + |r.value|
  }
}
