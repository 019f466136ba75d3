/** Identifiers, optional values and HTTP replies shared by every part of the backend model. */
module Base {

  /** Document identifiers. MongoDB's ObjectIds become plain numbers handed out by each store. */
  type UserId = nat
  type GroupId = nat
  type TaskId = nat

  /** A value that may be missing: `undefined`/`null` in the source. */
  datatype Option<T> = None | Some(value: T)

  /** What a handler sends back: the HTTP status and the `message` (or `error`) text of the JSON
      body. A body that is a document rather than a message carries the empty message. */
  datatype Response = Response(status: nat, message: string)

  /** JavaScript truthiness of an optional string field of a request body. */
  predicate Truthy(s: Option<string>) {
    s.Some? && s.value != ""
  }
}
