/** An output stream that may fail. */
module Streams {
  /** What happens to the stream during a tick: it takes everything, fails after n
      bytes, or fails when it is flushed. */
  datatype Fate = Succeeds | FailsAfter(n: nat) | FlushFails
}
