# NDI to WebRTC bridge: frame buffering model

This project models the core of a small Python server that forwards an NDI video source to
WebRTC peers. A background task captures NDI frames, strips their alpha channel and pushes them
into a bounded `asyncio.Queue` of capacity 10. When the queue is full, the oldest frame is
dropped first. Each WebRTC connection gets an `NDIVideoTrack`. On every `recv` the track drains the
queue and keeps the newest frame in `last_frame`. It then prepares `frame_data` to convert and
send: that frame, or a black 480x640 frame if no video has ever reached the track. `recv` goes on
to read the wall clock through `time`, which is never imported (lines 17-25). As written, every
`recv` therefore raises `NameError` at line 136, after the drain, and no frame is ever returned.
`Recv` returns the `frame_data` prepared at lines 128-132. Around this sit three smaller decisions: which
advertised source to connect to, the field check on an incoming offer, and the queue drain at
shutdown.

The repository holds two byte-identical copies of the program, `NDI-webRTC.py` and
`v9github_rev.py`. The rows below cite the first one. Every cited line is the same in the second.

Modules:

- `Wrappers`: `Option`, standing for Python's `None` and for `asyncio.QueueEmpty`.
- `Frames`: a frame is a row x column x channel array of bytes. Holds the alpha strip
  (`np.delete(frame, 3, axis=2)`) and the black placeholder frame.
- `FrameQueues`: the `asyncio.Queue` as a class over a `seq` of frames with a fixed capacity.
  Holds the drop-oldest push as a specification function and the sliding-window lemma.
- `Receiver`: `ndi_receive_frames`. A capture is an input value (frame type plus optional video
  data). The loop is run over a finite trace of captures. It is proved against `Pump`, and
  `Pump` is proved to be a sliding window over the pushed frames.
- `Track`: `NDIVideoTrack` as a class with the shared queue and a `lastFrame` field. `Recv` is
  the drain loop. The lemmas cover the sticky last frame and freshness.
- `Connect`: the source choice in `ndi_connect`.
- `Server`: `main`'s queue creation, `handle_offer` and the drain in `cleanup`. A ghost list
  records the peer connections created.

Asyncio runs one task at a time between `await`s. The queue methods, `Recv` up to the point where
it prepares `frame_data`, and the cleanup drain contain no `await`, so each is one atomic step.
One iteration of the receive loop is atomic for another reason. Its `await frame_queue.put(...)` at
line 107 cannot suspend, because lines 102-106 have just made room, and a put on a non-full queue
appends at once. The loop suspends only at line 110, after a capture that is not video. So a
track's `recv` and new offers run only after such a capture. The model allows steps in any order,
and that includes the order the source produces. `handle_offer` is not atomic: it awaits at line 146 and at
lines 163-167, and the track already exists before the later awaits. `HandleOffer` models only
its outcome.

`handle_offer` only checks that the `sdp` and `type` keys are present. It does not check that
`type` is `offer`, and the model follows the code.

Every connection's track drains the same shared queue, and each `recv` removes the frames it
finds. With several connections, the tracks compete for frames. A track can keep returning a frame
older than one another track has already taken. `Track.SharedQueueStaleFrame` shows two tracks
doing this. `Track.FreshestFrame` speaks only of the track that makes the next call.

## Model

| member | source | states |
|---|---|---|
| Frames.DropChannel3 | NDI-webRTC.py:99 | deleting index 3 of a pixel shortens it by one, keeps channels 0-2, and shifts later channels down by one |
| Frames.StripAlpha | NDI-webRTC.py:97-99 | rows and columns are kept; every pixel loses one channel; channels 0-2 equal the captured ones; later channels shift down |
| Frames.StripAlphaBgrx | NDI-webRTC.py:97-99 | an H x W x 4 BGRX/BGRA frame becomes an H x W x 3 frame whose pixels are the first three captured bytes |
| Frames.BlankFrame | NDI-webRTC.py:132 | the placeholder is 480 x 640 x 3 and every byte is zero |
| FrameQueues.PushLatest | NDI-webRTC.py:101-107 | with capacity n, the result has min(len+1, n) frames; the new frame is last; the rest are the newest old frames in order, so exactly the oldest is dropped when full |
| FrameQueues.PushLatestIsWindow | NDI-webRTC.py:101-107 | pushing onto the last n frames of a history gives the last n frames of the history plus the new frame |
| FrameQueues.FrameQueue.Full | NDI-webRTC.py:102 | `full()`: the queue holds as many frames as its capacity |
| FrameQueues.FrameQueue.Empty | NDI-webRTC.py:234 | `empty()`: the queue holds no frame |
| FrameQueues.FrameQueue.constructor | NDI-webRTC.py:247 | a new queue is empty and has the given positive capacity |
| FrameQueues.FrameQueue.GetNowait | NDI-webRTC.py:124-125 | on an empty queue it returns None and changes nothing; otherwise it removes and returns the oldest frame |
| FrameQueues.FrameQueue.Put | NDI-webRTC.py:107 | on a non-full queue it appends the frame at the newest end |
| Receiver.IsVideo | NDI-webRTC.py:95 | the capture has frame type video and carries a video frame |
| Receiver.Normalized | NDI-webRTC.py:95-99 | a video capture of xres x yres yields a yres x xres x 3 frame of its first three channels |
| Receiver.Step | NDI-webRTC.py:94-110 | after one iteration the queue stays within capacity; a non-video capture leaves it unchanged; a video capture puts its stripped frame last |
| Receiver.Pump | NDI-webRTC.py:93-110 | over any capture trace the queue never holds more than its capacity |
| Receiver.PumpIsWindow | NDI-webRTC.py:101-107 | after any capture trace the queue holds exactly the newest `capacity` frames of everything pushed, in arrival order |
| Receiver.ReceiveStep | NDI-webRTC.py:94-110 | one loop iteration changes the queue as `Step` says and keeps it within capacity |
| Receiver.ReceiveFrames | NDI-webRTC.py:93-110 | the loop over a capture trace leaves the queue equal to `Pump` of the trace, which is the sliding window over the pushed frames |
| Track.Drained | NDI-webRTC.py:122-126 | `last_frame` after the drain loop: the newest popped frame, or the old value when nothing was popped |
| Track.Shown | NDI-webRTC.py:128-132 | the prepared `frame_data` is the last frame if there is one; otherwise a 480 x 640 x 3 all-zero frame |
| Track.StickyLastFrame | NDI-webRTC.py:120-126 | over any sequence of recv calls, `last_frame` is the newest frame any of them drained, or its initial value if none drained anything |
| Track.NoBlankAfterFirstFrame | NDI-webRTC.py:128-132 | once a frame has been drained, every later recv prepares a real frame as `frame_data`, never the black one |
| Track.FreshestFrame | NDI-webRTC.py:120-126 | after the receive task sees any capture trace, the track that calls recv next keeps the newest video frame of that trace; if the trace had no video it keeps what it would have kept had it run before the trace: the newest frame already queued, or its last frame if the queue was empty |
| Track.SharedQueueStaleFrame | NDI-webRTC.py:120-126 | two tracks on one queue: A takes f1, f2 is pushed, B takes f2, and A's next recv still returns f1, older than the frame B holds |
| Track.VideoTrack.constructor | NDI-webRTC.py:115-118 | a new track is bound to the given queue and has no last frame |
| Track.VideoTrack.Recv | NDI-webRTC.py:120-132 | the queue ends empty; `last_frame` becomes the newest queued frame, or stays unchanged if the queue was empty; the result is `Shown(last_frame)` |
| Connect.Named | NDI-webRTC.py:59 | `source_name` is truthy: given and not the empty string |
| Connect.FirstMatch | NDI-webRTC.py:60 | returns None if and only if no source has the name; otherwise returns the position of the first source with that name |
| Connect.SelectSource | NDI-webRTC.py:59-65 | given a non-empty list, it picks the first source with the requested name; with no usable name or no match it picks source 0; the warning is logged exactly when a name was given and not found |
| Server.CheckOffer | NDI-webRTC.py:147-148 | the offer is refused exactly when `sdp` or `type` is missing; otherwise the remote description carries both values |
| Server.Server.constructor | NDI-webRTC.py:247 | the shared queue is fresh, empty and has capacity 10 |
| Server.Server.HandleOffer | NDI-webRTC.py:142-172 | a body missing a field gets 400 "Invalid SDP" and no peer connection is created; otherwise exactly one connection is added, with receive-only requested for its video transceiver and a fresh track on the shared queue and no last frame, and the answer is returned |
| Server.Server.Cleanup | NDI-webRTC.py:233-238 | the shutdown drain leaves the queue empty |

## Left out

- NDI SDK calls (`initialize`, `find_*`, `recv_create_v3`, `recv_connect`, `recv_capture_v2`, `recv_free_video_v2`, `recv_destroy`, `destroy`) are foreign I/O. A capture is an input value; the model assumes, as the BGRX/BGRA receiver format promises, that video buffers have 4 channels.
- The discovery loop, its 5 s wait and the 2 s settle sleep in `ndi_connect` are unbounded I/O polling. `SelectSource` starts from the non-empty list that loop returns. The `if not sources` check after the loop can never fire.
- The producer's endless `while True` loop is modelled over a finite trace of captures. Its `asyncio.sleep(0.01)` after any non-video capture (a timeout, audio, metadata or a status change) is a scheduling yield with no effect on the queue.
- Presentation timestamps in `recv` come from a floating-point wall clock. `time` is also never imported, so that line cannot run. The av `VideoFrame` conversion is a library call.
- `FrameQueues.FrameQueue.Put`: blocking when the queue is full is not modelled, so `Put` requires a non-full queue. The only caller makes room first. asyncio's unbounded mode (maxsize <= 0) is also not modelled, because the only queue is created with 10.
- aiortc negotiation (`setRemoteDescription`, `createAnswer`, `setLocalDescription`, the ICE logging callback) is transport-library work. Its answer is a parameter of `HandleOffer`. A failure there raises a server error that is not modelled.
- `Server.Server.HandleOffer` takes the JSON body as an object with string values. Line 147's `in` test also accepts JSON arrays and strings. An array or string without "sdp" gets the 400 reply. A body such as `["sdp","type"]` passes the check, so lines 150 and 155 create the peer connection and the track, and only then does line 164 raise `TypeError`. Bodies that are not objects, values that are not strings, and invalid JSON are not modelled.
- `Track.VideoTrack.Recv` stops at the `frame_data` of lines 128-132. The av conversion and the timestamp lines after it are not modelled, and as written line 136 raises `NameError`.
- The HTML page in `index`, the aiohttp application and site setup, and logging are UI and plumbing.
- Task cancellation in `cleanup` is left out because it is scheduling, not data logic. So are `recv_destroy` and `destroy`. Only the queue drain is modelled.
- Python truthiness of the chosen source object is taken to be true: an NDI source record has no falsy state.
