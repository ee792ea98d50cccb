/**
  Both ends of an HTTP exchange: what an Express handler sends back, and what
  an axios call in a page resolves or rejects with.
*/
module Http {
  import opened Wrappers

  /** The JSON body: a document (or list of documents), or a `{ message }` object. */
  datatype Body<+T> = Json(value: T) | Notice(message: string)

  datatype Reply<+T> = Reply(status: nat, body: Body<T>)

  /**
    How a page's request ended: a 2xx answer, or a rejection carrying the
    server's `message` when the error response had one.
  */
  datatype Answer = Accepted | Rejected(message: Option<string>)
}
