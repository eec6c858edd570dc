/** The bounded `asyncio.Queue` shared by the NDI receive task and every video track. */
module FrameQueues {
  import opened Wrappers
  import opened Frames

  /** `asyncio.Queue(maxsize=10)` in `main`. */
  const MaxSize: nat := 10

  /** The last `n` elements of `s`, or all of `s` when it has no more than `n`. */
  function Window<T>(s: seq<T>, n: nat): seq<T> {
    if |s| <= n then s else s[|s| - n..]
  }

  /** The producer's push: when the queue holds `capacity` frames its oldest frame is taken out,
      then `f` is appended. The result is the newest frames, `f` last, at most `capacity` of them. */
  function PushLatest(items: seq<Frame>, capacity: nat, f: Frame): (r: seq<Frame>)
    requires 0 < capacity && |items| <= capacity
    ensures |r| == if |items| < capacity then |items| + 1 else capacity
    ensures r[|r| - 1] == f
    ensures r[..|r| - 1] == items[|items| - (|r| - 1)..]
  {
    (if |items| >= capacity then items[1..] else items) + [f]
  }

  /** Pushing onto a queue that holds the last frames of a history gives the last frames of the
      history extended by the new frame: the queue is a sliding window over everything pushed. */
  lemma PushLatestIsWindow(history: seq<Frame>, capacity: nat, f: Frame)
    requires 0 < capacity
    ensures PushLatest(Window(history, capacity), capacity, f) == Window(history + [f], capacity)
  {
  }

  /** An `asyncio.Queue` with a positive `maxsize`. Between two `await`s the event loop runs one
      task alone, so each method below is one atomic step on `items`, oldest first. */
  class FrameQueue {
    var items: seq<Frame>
    const capacity: nat

    ghost predicate Valid()
      reads this
    {
      0 < capacity && |items| <= capacity
    }

    constructor (maxsize: nat)
      requires 0 < maxsize
      ensures Valid() && capacity == maxsize && items == []
    {
      capacity := maxsize;
      items := [];
    }

    /** `full()`. */
    predicate Full()
      reads this
    {
      |items| >= capacity
    }

    /** `empty()`. */
    predicate Empty()
      reads this
    {
      items == []
    }

    /** `get_nowait()`: the oldest frame, or `None` where asyncio raises `QueueEmpty`. */
    method GetNowait() returns (r: Option<Frame>)
      requires Valid()
      modifies this
      ensures Valid()
      ensures old(items) == [] ==> r == None && items == []
      ensures old(items) != [] ==> r == Some(old(items)[0]) && items == old(items)[1..]
    {
      if items == [] {
        r := None;
      } else {
        r := Some(items[0]);
        items := items[1..];
      }
    }

    /** `await put(f)` when the queue is not full: it appends without suspending. */
    method Put(f: Frame)
      requires Valid() && !Full()
      modifies this
      ensures Valid()
      ensures items == old(items) + [f]
    {
      items := items + [f];
    }
  }
}
