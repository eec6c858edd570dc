/** `ndi_receive_frames`: the background task that captures NDI frames and pushes them,
    alpha stripped, into the bounded frame queue. The capture call itself is foreign I/O, so a
    run of the task is modelled on the trace of what the captures returned. */
module Receiver {
  import opened Wrappers
  import opened Frames
  import opened FrameQueues

  /** The frame type `t` reported by `recv_capture_v2`. */
  datatype FrameType = NoFrame | VideoType | AudioType | MetadataType | ErrorType | StatusChange

  /** The video part `v` of a capture: resolution and the BGRX / BGRA pixel buffer. */
  datatype VideoData = VideoData(xres: nat, yres: nat, data: Frame)

  /** One result of `recv_capture_v2`: its type and its video frame, if any. */
  datatype Capture = Capture(kind: FrameType, video: Option<VideoData>)

  /** The branch taken at the top of the loop: a video frame was delivered. */
  predicate IsVideo(c: Capture) {
    c.kind == VideoType && c.video.Some?
  }

  /** The receiver is created with the BGRX / BGRA colour format, so a delivered video buffer
      is a yres x xres array of 4-byte pixels. */
  ghost predicate WellFormed(c: Capture) {
    IsVideo(c) ==> HasShape(c.video.value.data, c.video.value.yres, c.video.value.xres, 4)
  }

  ghost predicate AllWellFormed(cs: seq<Capture>) {
    forall k :: 0 <= k < |cs| ==> WellFormed(cs[k])
  }

  /** The frame a video capture contributes: its buffer without channel 3. */
  function Normalized(c: Capture): (f: Frame)
    requires IsVideo(c) && WellFormed(c)
    ensures HasShape(f, c.video.value.yres, c.video.value.xres, 3)
    ensures forall i, j :: 0 <= i < |f| && 0 <= j < |f[i]| ==> f[i][j] == c.video.value.data[i][j][..3]
  {
    StripAlphaBgrx(c.video.value.data, c.video.value.yres, c.video.value.xres);
    StripAlpha(c.video.value.data)
  }

  /** The queue contents after one iteration of the receive loop. */
  function Step(items: seq<Frame>, capacity: nat, c: Capture): (r: seq<Frame>)
    requires 0 < capacity && |items| <= capacity && WellFormed(c)
    ensures |r| <= capacity
    ensures !IsVideo(c) ==> r == items
    ensures IsVideo(c) ==> |r| > 0 && r[|r| - 1] == Normalized(c)
  {
    if IsVideo(c) then PushLatest(items, capacity, Normalized(c)) else items
  }

  /** The queue contents after the loop has seen the captures `cs`, in order. */
  function Pump(items: seq<Frame>, capacity: nat, cs: seq<Capture>): (r: seq<Frame>)
    requires 0 < capacity && |items| <= capacity && AllWellFormed(cs)
    ensures |r| <= capacity
    decreases |cs|
  {
    if cs == [] then items
    else Step(Pump(items, capacity, cs[..|cs| - 1]), capacity, cs[|cs| - 1])
  }

  /** Every frame the loop pushes over the captures `cs`, oldest first. */
  function Pushed(cs: seq<Capture>): (r: seq<Frame>)
    requires AllWellFormed(cs)
    decreases |cs|
  {
    if cs == [] then []
    else
      var last := cs[|cs| - 1];
      Pushed(cs[..|cs| - 1]) + (if IsVideo(last) then [Normalized(last)] else [])
  }

  /** Whatever the captures, the queue holds the newest frames pushed so far, at most
      `capacity` of them and in arrival order: older frames are the ones discarded. */
  lemma {:induction false} PumpIsWindow(items: seq<Frame>, capacity: nat, cs: seq<Capture>)
    requires 0 < capacity && |items| <= capacity && AllWellFormed(cs)
    ensures Pump(items, capacity, cs) == Window(items + Pushed(cs), capacity)
    decreases |cs|
  {
    if cs == [] {
      assert items + Pushed(cs) == items;
    } else {
      var front, last := cs[..|cs| - 1], cs[|cs| - 1];
      assert AllWellFormed(front);
      PumpIsWindow(items, capacity, front);
      if IsVideo(last) {
        PushLatestIsWindow(items + Pushed(front), capacity, Normalized(last));
        assert items + Pushed(cs) == items + Pushed(front) + [Normalized(last)];
      } else {
        assert items + Pushed(cs) == items + Pushed(front);
      }
    }
  }

  /** One iteration of the `while True` loop of `ndi_receive_frames`, after the capture call. */
  method ReceiveStep(queue: FrameQueue, capture: Capture)
    requires queue.Valid() && WellFormed(capture)
    modifies queue
    ensures queue.Valid()
    ensures queue.items == Step(old(queue.items), queue.capacity, capture)
  {
    if capture.kind == VideoType && capture.video.Some? {
      var v := capture.video.value;
      StripAlphaBgrx(v.data, v.yres, v.xres);
      var frameData := StripAlpha(v.data);
      if queue.Full() {
        var dropped := queue.GetNowait();
      }
      queue.Put(frameData);
    }
  }

  /** The receive loop run over the captures `cs`. */
  method ReceiveFrames(queue: FrameQueue, cs: seq<Capture>)
    requires queue.Valid() && AllWellFormed(cs)
    modifies queue
    ensures queue.Valid()
    ensures queue.items == Pump(old(queue.items), queue.capacity, cs)
    ensures queue.items == Window(old(queue.items) + Pushed(cs), queue.capacity)
  {
    var k := 0;
    while k < |cs|
      invariant 0 <= k <= |cs|
      invariant queue.Valid()
      invariant AllWellFormed(cs[..k])
      invariant queue.items == Pump(old(queue.items), queue.capacity, cs[..k])
    {
      assert cs[..k + 1][..k] == cs[..k];
      assert AllWellFormed(cs[..k + 1]);
      ReceiveStep(queue, cs[k]);
      k := k + 1;
    }
    assert cs[..k] == cs;
    PumpIsWindow(old(queue.items), queue.capacity, cs);
  }
}
