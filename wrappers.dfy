/** Optional values: Python's `None` and the `asyncio.QueueEmpty` outcome of a non-blocking get. */
module Wrappers {
  datatype Option<+T> = None | Some(value: T)
}
