/** The credit bookkeeping of the HTTP/2 handler, on its streams and their requests. */
module Http2 {
  import opened Credit

  class ASGIRequest {
    var queue: seq<nat>
    var finished: bool
    var disconnected: bool

    constructor ()
      ensures queue == [] && !finished && !disconnected
    {
      queue, finished, disconnected := [], false, false;
    }

    method FeedRequest(flow: nat) returns (gone: bool)
      modifies this`queue
      ensures gone == (finished || disconnected)
      ensures queue == if gone then old(queue) else old(queue) + [flow]
    {
      if finished || disconnected {
        return true;
      }
      queue := queue + [flow];
      return false;
    }

    method NotifyDisconnect()
      modifies this
      ensures disconnected && finished && queue == old(queue) + [0]
    {
      disconnected, finished := true, true;
      queue := queue + [0];
    }

    method MarkFinished()
      modifies this
      ensures disconnected && finished && queue == if old(disconnected) then old(queue) else old(queue) + [0]
    {
      finished := true;
      if !disconnected {
        disconnected := true;
        queue := queue + [0];
      }
    }
  }

  class H2Stream {
    const id: nat
    const request: ASGIRequest
    var closed: bool
    var requestEnded: bool
    var responseComplete: bool
    var unacked: nat
    var received: nat

    constructor (id: nat)
      ensures this.id == id && fresh(request) && request.queue == [] && !request.finished && !request.disconnected
      ensures !closed && !requestEnded && !responseComplete && unacked == 0 && received == 0
    {
      this.id := id;
      request := new ASGIRequest();
      closed, requestEnded, responseComplete, unacked, received := false, false, false, 0, 0;
    }
  }

  function Get(m: map<nat, nat>, id: nat): nat {
    if id in m then m[id] else 0
  }

  /** The handler of an open connection.  `granted`, `returned` and `late` are the
      books: per stream, the credit spent by the peer, handed back to it, and taken by
      the application after its request was over. */
  class HTTP2Handler {
    const maxRequestSize: nat
    var streams: map<nat, H2Stream>
    ghost var granted: map<nat, nat>
    ghost var returned: map<nat, nat>
    ghost var late: map<nat, nat>

    constructor (limit: nat)
      ensures maxRequestSize == limit && streams == map[] && granted == returned == late == map[]
    {
      maxRequestSize := limit;
      streams, granted, returned, late := map[], map[], map[], map[];
    }

    ghost function Books(s: H2Stream): Account
      reads this, s, s.request
    {
      Account(s.id in streams, s.unacked, s.received, s.requestEnded, s.responseComplete, s.request.finished,
              s.request.queue, Get(granted, s.id), Get(returned, s.id), Get(late, s.id))
    }

    ghost predicate Ok(s: H2Stream)
      reads this, s, s.request
    {
      && (s.id in streams ==> streams[s.id] == s)
      && (s.closed <==> s.id !in streams)
      && s.request.finished == s.request.disconnected
    }

    /** Everything about the other streams is as it was. */
    twostate predicate Spares(id: nat)
      reads this
    {
      forall k :: k != id ==>
        && (k in streams <==> k in old(streams)) && (k in streams ==> streams[k] == old(streams)[k])
        && Get(granted, k) == Get(old(granted), k) && Get(returned, k) == Get(old(returned), k) && Get(late, k) == Get(old(late), k)
    }

    method Open(id: nat) returns (s: H2Stream)
      requires id !in streams && id !in granted && id !in returned && id !in late
      modifies this`streams
      ensures fresh(s) && fresh(s.request) && s.id == id && Ok(s) && Books(s) == OPENED && Spares(id)
    {
      s := new H2Stream(id);
      streams := streams[id := s];
    }

    /** Hands `size` bytes of credit back. */
    method Ack(id: nat, size: nat, ghost s: H2Stream)
      requires s.id == id && (id in streams ==> streams[id] == s)
      modifies this`returned, s`unacked
      ensures Spares(id) && Books(s) == Credit.Ack(old(Books(s)), size)
    {
      if size == 0 {
        return;
      }
      if id in streams {
        var stream := streams[id];
        stream.unacked := if stream.unacked > size then stream.unacked - size else 0;
      }
      returned := returned[id := Get(returned, id) + size];
    }

    method Finalize(s: H2Stream)
      requires Ok(s)
      modifies this, s
      ensures Ok(s) && Spares(s.id)
      ensures Books(s) == if old(s.closed) then old(Books(s)) else Credit.Finalize(old(Books(s)))
    {
      if s.closed {
        return;
      }
      s.closed := true;
      Ack(s.id, s.unacked, s);
      s.unacked := 0;
      streams := map k | k in streams && k != s.id :: streams[k];
    }

    method ResetStream(s: H2Stream)
      requires Ok(s)
      modifies this, s, s.request
      ensures Ok(s) && Spares(s.id) && Books(s) == OnReset(old(Books(s)))
    {
      if s.closed {
        return;
      }
      s.closed := true;
      s.request.NotifyDisconnect();
      Ack(s.id, s.unacked, s);
      s.unacked := 0;
      streams := map k | k in streams && k != s.id :: streams[k];
    }

    /** A DATA frame of flow size `flow` with `size` bytes of data. */
    method OnData(id: nat, flow: nat, size: nat, ghost s: H2Stream)
      requires s.id == id && Ok(s)
      modifies this, s, s.request
      ensures Ok(s) && Spares(id) && Books(s) == Credit.OnData(old(Books(s)), flow, size, maxRequestSize)
    {
      hide Credit.Ack, OnReset;
      granted := granted[id := Get(granted, id) + flow];
      if id !in streams {
        Ack(id, flow, s);
        return;
      }
      var stream := streams[id];
      stream.unacked := stream.unacked + flow;
      if stream.request.finished || size == 0 {
        Ack(id, flow, s);
        return;
      }
      if maxRequestSize > 0 && stream.received + size > maxRequestSize {
        ResetStream(stream);
        return;
      }
      stream.received := stream.received + size;
      // The branches that hand the credit of a refused message back are never taken: a
      // request is disconnected only when it is finished, and the queue has no bound.
      var gone := stream.request.FeedRequest(flow);
      assert !gone;
    }

    method OnStreamEnded(id: nat, ghost s: H2Stream)
      requires s.id == id && Ok(s)
      modifies this, s, s.request
      ensures Ok(s) && Spares(id) && Books(s) == OnEnded(old(Books(s)))
    {
      if id !in streams {
        return;
      }
      var stream := streams[id];
      stream.requestEnded := true;
      if !stream.request.finished {
        var _ := stream.request.FeedRequest(0);
      }
      if stream.responseComplete {
        Finalize(stream);
      }
    }

    /** The application takes the next message; nothing happens while none waits. */
    method Receive(s: H2Stream)
      requires Ok(s)
      modifies this, s`unacked, s.request`queue
      ensures Ok(s) && Spares(s.id) && Books(s) == OnReceive(old(Books(s)))
    {
      if s.request.queue == [] {
        return;
      }
      var flow := s.request.queue[0];
      s.request.queue := s.request.queue[1..];
      if s.request.finished {
        late := late[s.id := Get(late, s.id) + flow];
      }
      if flow != 0 {
        Ack(s.id, flow, s);
      }
    }

    /** What the writer does at the end, however the answer ended. */
    method FinishResponse(s: H2Stream)
      requires Ok(s)
      modifies this, s, s.request
      ensures Ok(s) && Spares(s.id) && Books(s) == OnFinish(old(Books(s)))
    {
      s.request.MarkFinished();
      s.responseComplete := true;
      if s.requestEnded && !s.closed {
        Finalize(s);
      } else if !s.closed {
        Ack(s.id, s.unacked, s);
      }
    }
  }
}
