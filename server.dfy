/** The signalling side: `main`'s wiring of the shared queue, `handle_offer` and the shutdown
    `cleanup`. WebRTC negotiation itself belongs to the transport library, so its answer is a
    parameter here. */
module Server {
  import opened Wrappers
  import opened FrameQueues
  import opened Track

  /** A session description: the `sdp` text and its `type`. */
  datatype Description = Description(sdp: string, sdpType: string)

  /** The HTTP reply to `POST /offer`. */
  datatype Response = TextResponse(status: int, text: string) | JsonAnswer(sdp: string, sdpType: string)

  /** A transceiver direction, as passed to `addTransceiver`. */
  datatype Direction = SendRecv | SendOnly | RecvOnly | Inactive

  /** A peer connection created for an accepted offer: the remote description it was given,
      the direction requested for its video transceiver, and the track added to it. */
  datatype Session = Session(remote: Description, direction: Direction, track: VideoTrack)

  /** The field check at the top of `handle_offer`: the remote description to negotiate, or
      `None` when the JSON body lacks `sdp` or `type`. */
  function CheckOffer(body: map<string, string>): (r: Option<Description>)
    ensures r.None? <==> "sdp" !in body || "type" !in body
    ensures r.Some? ==> r.value.sdp == body["sdp"] && r.value.sdpType == body["type"]
  {
    if "sdp" !in body || "type" !in body then None
    else Some(Description(body["sdp"], body["type"]))
  }

  /** The reply for a body the field check refuses. */
  const BadOffer: Response := TextResponse(400, "Invalid SDP")

  class Server {
    const queue: FrameQueue
    /** Every peer connection `handle_offer` has created, oldest first. */
    ghost var peers: seq<Session>

    /** `main`: the frame queue of capacity 10, no connection yet. */
    constructor ()
      ensures fresh(queue) && queue.Valid()
      ensures queue.capacity == MaxSize && queue.items == []
      ensures peers == []
    {
      queue := new FrameQueue(MaxSize);
      peers := [];
    }

    /** `handle_offer`: a body without `sdp` or `type` gets 400 and creates nothing; otherwise a
        peer connection is created whose video transceiver is requested as receive-only, a fresh
        track on the shared queue is added to it, and the transport's `answer` is returned as
        JSON. The queue itself is not touched. */
    method HandleOffer(body: map<string, string>, answer: Description) returns (response: Response)
      modifies this
      ensures CheckOffer(body).None? ==> response == BadOffer && peers == old(peers)
      ensures CheckOffer(body).Some? ==>
        |peers| == |old(peers)| + 1 && peers[..|old(peers)|] == old(peers) &&
        peers[|peers| - 1].remote == CheckOffer(body).value &&
        peers[|peers| - 1].direction == RecvOnly &&
        fresh(peers[|peers| - 1].track) &&
        peers[|peers| - 1].track.queue == queue &&
        peers[|peers| - 1].track.lastFrame == None &&
        response == JsonAnswer(answer.sdp, answer.sdpType)
    {
      var remote := CheckOffer(body);
      if remote.None? {
        return BadOffer;
      }
      var track := new VideoTrack(queue);
      peers := peers + [Session(remote.value, RecvOnly, track)];
      response := JsonAnswer(answer.sdp, answer.sdpType);
    }

    /** The queue drain at the end of `cleanup`: get frames until the queue reports empty. */
    method Cleanup()
      requires queue.Valid()
      modifies queue
      ensures queue.Valid() && queue.items == []
    {
      while !queue.Empty()
        invariant queue.Valid()
        decreases |queue.items|
      {
        var got := queue.GetNowait();
        if got.None? {
          break;
        }
      }
    }
  }
}
