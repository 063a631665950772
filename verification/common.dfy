/** Small shared vocabulary of the pixel-placement server model. */
module Common {

  /** An 8-bit colour channel, Go's `uint8`. */
  type byte = x: int | 0 <= x < 256

  /** A value that may be absent (a cache miss, a failed parse, a missing claim). */
  datatype Option<+T> = None | Some(value: T)

  /** The `status` field of every JSON reply: "success", "error" or "ratelimit". */
  datatype Status = Success | Error | RateLimit

  /** One JSON reply: the HTTP status code, the `status` field and the `message` field. */
  datatype Reply = Reply(code: int, status: Status, message: string)
}
