/** What an Express handler sends back, as far as the model follows it. */
module HttpReply {

  /** The HTTP status and the `message` or `error` text of the JSON body. */
  datatype Reply = Reply(status: int, text: string)
}
