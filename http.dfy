/** What a route handler sends back. */
module Http {
  import opened Documents

  /** The payloads the handlers pass to `res.send`. */
  datatype Body =
    | Message(text: string)          // `{ message: text }`
    | Record(doc: Doc)               // one stored record
    | Records(docs: Table)           // the array of `find().toArray()`
    | NullBody                       // `res.send(null)`
    | Inserted(insertedId: Value)    // insertOne's acknowledgement
    | Updated(matched: nat, modified: nat)  // updateOne's acknowledgement
    | Deleted(deleted: nat)          // deleteOne's acknowledgement

  /**
    `Reply(status, body)` is a response sent by the handler (status 200 when
    the handler did not set one). `Raised` is a handler that threw before
    sending anything: what the framework then does is not part of the model.
   */
  datatype Response = Reply(status: nat, body: Body) | Raised

  function Ok(body: Body): Response
  {
    Reply(200, body)
  }

  const Unauthorized: Response := Reply(401, Message("Unauthorized"))
}
