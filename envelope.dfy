/** The envelope model of the AMQP helper: header values, the header table
    (a Go map, so a heap object that several envelopes may share), the basic
    properties a publishing carries, and the retry-count header convention. */
module Envelope {

  const MinInt64: int := -0x8000_0000_0000_0000
  const MaxInt64: int := 0x7fff_ffff_ffff_ffff

  type int64 = x: int | -0x8000_0000_0000_0000 <= x <= 0x7fff_ffff_ffff_ffff
  type int32 = x: int | -0x8000_0000 <= x <= 0x7fff_ffff
  type uint8 = x: int | 0 <= x < 0x100

  /** A message body: a byte slice. */
  type Bytes = seq<uint8>

  datatype Option<+T> = None | Some(value: T)

  datatype Result<+T, +E> = Success(value: T) | Failure(error: E)

  /** The reserved header under which the retry count is kept, as an int64. */
  const RetryCountHeader: string := "retryCount"

  /** A header value. The broker's field tables are dynamically typed; the
      model keeps a tagged union of the kinds a header can hold, so that a
      retry count stored with the wrong integer width is representable. */
  datatype Value =
    | Int64(i64: int64)
    | Int32(i32: int32)
    | Str(s: string)
    | Boolean(b: bool)
    | Raw(bytes: Bytes)
    | Time(unixNanos: int)
    | Void

  /** The errors the envelope factory hands back to its caller. */
  datatype Error =
    | MarshalFailed(reason: string)  // the body could not be serialised
    | TooManyRetries                 // the kickback budget is spent
    | RetryCountNotInt64             // the int64 type assertion on the header would panic

  /** A header table. A Go map is a reference: copying it into another
      envelope shares it, and a write through either copy is seen by both. */
  class Table {
    var entries: map<string, Value>

    constructor (entries: map<string, Value>)
      ensures this.entries == entries
    {
      this.entries := entries;
    }

    /** Map assignment `t[key] = v`. */
    method Set(key: string, v: Value)
      modifies this
      ensures entries == old(entries)[key := v]
    {
      entries := entries[key := v];
    }
  }

  /** What reading a header table sees: a nil map reads as the empty map. */
  ghost function Entries(t: Table?): map<string, Value>
    reads t
  {
    if t == null then map[] else t.entries
  }

  /** The broker metadata a publishing carries besides headers and body. */
  datatype Properties = Properties(
    contentType: string,
    contentEncoding: string,
    deliveryMode: uint8,
    priority: uint8,
    correlationId: string,
    replyTo: string,
    expiration: string,
    messageId: string,
    timestamp: int,         // the zero time is 0
    messageType: string,
    userId: string,
    appId: string)

  /** Every property at its zero value. */
  const NoProperties := Properties("", "", 0, 0, "", "", "", "", 0, "", "", "")

  /** An inbound message as the broker delivered it (the fields the factory reads). */
  datatype Delivery = Delivery(headers: Table?, props: Properties, body: Bytes)

  /** An outbound message handed to the publish primitive. */
  datatype Publishing = Publishing(headers: Table?, props: Properties, body: Bytes)

  /** The zero publishing, returned beside every error. */
  const EmptyPublishing := Publishing(null, NoProperties, [])

  /** Go's int64 `n + 1`, which wraps from the largest value to the smallest. */
  function WrapIncrement(n: int64): (r: int64)
    ensures r == (n + 1 - MinInt64) % 0x1_0000_0000_0000_0000 + MinInt64
  {
    if n == 0x7fff_ffff_ffff_ffff then -0x8000_0000_0000_0000 else n + 1
  }

  /** The retry count a header table records: 0 when the header is absent,
      the stored value when it is an int64, an error when the type assertion
      on it would panic. */
  function RetryCount(h: map<string, Value>): (r: Result<int64, Error>)
    ensures r.Success? <==> RetryCountHeader !in h || h[RetryCountHeader].Int64?
    ensures RetryCountHeader !in h ==> r == Success(0)
    ensures RetryCountHeader in h && r.Success? ==> h[RetryCountHeader] == Int64(r.value)
    ensures r.Failure? ==> r.error == RetryCountNotInt64
  {
    if RetryCountHeader !in h then Success(0)
    else match h[RetryCountHeader]
      case Int64(n) => Success(n)
      case _ => Failure(RetryCountNotInt64)
  }

  /** The headers with every entry except the retry count. */
  function OtherHeaders(h: map<string, Value>): map<string, Value>
  {
    h - {RetryCountHeader}
  }
}
