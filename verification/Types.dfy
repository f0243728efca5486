/** The values the relay passes around: messages, stored entries and outcomes. */
module Types {

  datatype Option<+T> = None | Some(value: T)

  datatype Result<+T, +E> = Ok(value: T) | Err(error: E)

  newtype byte = b: int | 0 <= b < 256

  type Id = string

  /** A message body with its optional MIME content type. */
  datatype Message = Message(body: seq<byte>, contentType: Option<string>)

  /** One row of the repository. Times are Unix timestamps in milliseconds. */
  datatype Entry = Entry(
    body: Option<seq<byte>>,
    contentType: Option<string>,
    acked: bool,
    expiresAt: int,
    createdAt: int)

  /** What a lookup reveals of a row. */
  datatype StoredEntry = StoredEntry(
    body: Option<seq<byte>>,
    contentType: Option<string>,
    acked: bool,
    expiresAt: int)

  datatype InsertOutcome = Stored | StoreFull

  datatype SubscribeError = WaiterLimitReached | NotFound

  datatype StoreAndSubscribeError = NoWaiterRoom | NoStoreRoom | ExpiredAtOnce

  /** A message that is there, or the receiver that will get one. */
  datatype Fetch = Delivered(message: Message) | Waiting(receiver: nat)
}
