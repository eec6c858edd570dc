/** `NDIVideoTrack`: the per-connection media track. Each `recv` drains the shared queue,
    keeps the newest frame it saw in `last_frame`, and prepares that frame, or a black frame when
    no video has ever reached this track. */
module Track {
  import opened Wrappers
  import opened Frames
  import opened FrameQueues
  import opened Receiver

  /** `last_frame` after draining the frames `pending`, oldest first. */
  function Drained(pending: seq<Frame>, last: Option<Frame>): Option<Frame> {
    if pending == [] then last else Some(pending[|pending| - 1])
  }

  /** The pixel data a call of `recv` prepares for `last_frame`. */
  function Shown(last: Option<Frame>): (f: Frame)
    ensures last.Some? ==> f == last.value
    ensures last.None? ==> HasShape(f, BlankHeight, BlankWidth, 3)
    ensures last.None? ==> forall i, j, c :: 0 <= i < |f| && 0 <= j < |f[i]| && 0 <= c < |f[i][j]| ==> f[i][j][c] == 0
  {
    match last
    case Some(f) => f
    case None => BlankFrame()
  }

  /** `last_frame` after successive calls of `recv`, the k-th of which found `batches[k]`
      in the queue. */
  function Polls(last: Option<Frame>, batches: seq<seq<Frame>>): Option<Frame>
    decreases |batches|
  {
    if batches == [] then last
    else Drained(batches[|batches| - 1], Polls(last, batches[..|batches| - 1]))
  }

  /** All frames of `batches` in the order they were queued. */
  function Concat(batches: seq<seq<Frame>>): seq<Frame>
    decreases |batches|
  {
    if batches == [] then [] else Concat(batches[..|batches| - 1]) + batches[|batches| - 1]
  }

  /** Over any number of `recv` calls, `last_frame` is the newest frame any of them drained,
      and is unchanged while they drained nothing: an empty poll never clears it. */
  lemma {:induction false} StickyLastFrame(last: Option<Frame>, batches: seq<seq<Frame>>)
    ensures var all := Concat(batches);
      Polls(last, batches) == if all == [] then last else Some(all[|all| - 1])
    decreases |batches|
  {
    if batches != [] {
      var front := batches[..|batches| - 1];
      StickyLastFrame(last, front);
    }
  }

  /** Once a track has drained a frame it never prepares the black frame again. */
  lemma {:induction false} NoBlankAfterFirstFrame(last: Option<Frame>, batches: seq<seq<Frame>>)
    requires last.Some? || Concat(batches) != []
    ensures Polls(last, batches).Some?
    ensures Shown(Polls(last, batches)) == Polls(last, batches).value
  {
    StickyLastFrame(last, batches);
  }

  /** Freshness: after the receive task has seen the captures `cs`, the next `recv` returns the
      newest video frame among them, never an older one; with no video among them it returns
      what it would have returned had it run before the captures. */
  lemma {:induction false} FreshestFrame(items: seq<Frame>, capacity: nat, cs: seq<Capture>, last: Option<Frame>)
    requires 0 < capacity && |items| <= capacity && AllWellFormed(cs)
    ensures var pushed := Pushed(cs);
      Drained(Pump(items, capacity, cs), last) ==
        if pushed == [] then Drained(items, last) else Some(pushed[|pushed| - 1])
  {
    PumpIsWindow(items, capacity, cs);
    var all := items + Pushed(cs);
    if Pushed(cs) != [] {
      assert all[|all| - 1] == Pushed(cs)[|Pushed(cs)| - 1];
    } else {
      assert all == items;
    }
  }

  class VideoTrack {
    const queue: FrameQueue
    var lastFrame: Option<Frame>

    /** `__init__`: bound to the shared queue, nothing received yet. */
    constructor (frameQueue: FrameQueue)
      ensures queue == frameQueue && lastFrame == None
    {
      queue := frameQueue;
      lastFrame := None;
    }

    /** `recv`: pops frames until the queue is empty, keeping the last one popped, then
        returns the prepared frame data. It never fails on an empty queue. */
    method Recv() returns (frame: Frame)
      requires queue.Valid()
      modifies this, queue
      ensures queue.Valid() && queue.items == []
      ensures lastFrame == Drained(old(queue.items), old(lastFrame))
      ensures frame == Shown(lastFrame)
    {
      ghost var popped: seq<Frame> := [];
      var more := true;
      while more
        invariant queue.Valid()
        invariant old(queue.items) == popped + queue.items
        invariant lastFrame == Drained(popped, old(lastFrame))
        invariant !more ==> queue.items == []
        decreases |queue.items|, more
      {
        var got := queue.GetNowait();
        match got {
          case Some(f) =>
            lastFrame := Some(f);
            popped := popped + [f];
          case None =>
            more := false;
        }
      }
      assert popped == old(queue.items);
      if lastFrame.Some? {
        frame := lastFrame.value;
      } else {
        frame := BlankFrame();
      }
    }
  }

  /** Every connection's track drains the one shared queue, so tracks compete for frames: here
      track A keeps returning `f1` after track B has taken the newer `f2`. */
  method SharedQueueStaleFrame(f1: Frame, f2: Frame) returns (first: Frame, taken: Frame, again: Frame)
    requires f1 != f2
    ensures first == f1 && taken == f2
    ensures again == f1 && again != taken
  {
    var queue := new FrameQueue(MaxSize);
    var trackA := new VideoTrack(queue);
    var trackB := new VideoTrack(queue);
    queue.Put(f1);
    first := trackA.Recv();
    queue.Put(f2);
    taken := trackB.Recv();
    again := trackA.Recv();
  }
}
