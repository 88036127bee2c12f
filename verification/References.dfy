/** Reference counting (libcontainer/refcount.c) and the objects of the FastCGI endpoint that are
    counted with it: server, endpoint and request (endpoints/fcgi). */
module References {
  import opened Wrappers

  // An unsigned long of 64 bits.
  const COUNT_MODULUS: nat := 0x1_0000_0000_0000_0000
  type Count = n: nat | n < COUNT_MODULUS

  function Incremented(n: Count): Count {
    (n + 1) % COUNT_MODULUS
  }

  function Decremented(n: Count): Count {
    (n - 1) % COUNT_MODULUS
  }

  /** Away from the two ends of the range the counters count, and a release undoes an addref. */
  lemma CountsExactly(n: Count)
    ensures Decremented(Incremented(n)) == n && Incremented(Decremented(n)) == n
    ensures Incremented(n) == n + 1 <==> n < COUNT_MODULUS - 1
    ensures Decremented(n) == n - 1 <==> n > 0
  {
    if n == 0 {
      assert (-1) % COUNT_MODULUS == COUNT_MODULUS - 1;
    }
  }

  class Server {
    var refcount: Count
    var freed: bool

    constructor ()
      ensures refcount == 1 && !freed
    {
      refcount, freed := 1, false;
    }

    method AddRef() returns (r: Count)
      modifies this
      ensures r == refcount == Incremented(old(refcount)) && freed == old(freed)
    {
      refcount := Incremented(refcount);
      r := refcount;
    }

    method Release() returns (r: Count)
      modifies this
      ensures r == refcount == Decremented(old(refcount))
      ensures freed == (old(freed) || r == 0)
    {
      refcount := Decremented(refcount);
      r := refcount;
      if r == 0 {
        freed := true;
      }
    }
  }

  /** An accepted FastCGI connection. */
  type Connection = nat

  class Endpoint {
    const server: Server
    var refcount: Count
    var freed: bool
    // The next request to be acquired.
    var request: Option<Connection>

    constructor (server: Server)
      modifies server
      ensures this.server == server && refcount == 1 && !freed && request == None
      ensures server.refcount == Incremented(old(server.refcount)) && server.freed == old(server.freed)
    {
      this.server := server;
      refcount, freed, request := 1, false, None;
      new;
      var _ := server.AddRef();
    }

    method AddRef() returns (r: Count)
      modifies this
      ensures r == refcount == Incremented(old(refcount)) && freed == old(freed) && request == old(request)
    {
      refcount := Incremented(refcount);
      r := refcount;
    }

    /** The release that reaches zero frees the endpoint and drops its reference to the server. */
    method Release() returns (r: Count)
      modifies this, server
      ensures r == refcount == Decremented(old(refcount)) && request == old(request)
      ensures freed == (old(freed) || r == 0)
      ensures server.refcount == (if r == 0 then Decremented(old(server.refcount)) else old(server.refcount))
      ensures server.freed == (old(server.freed) || (r == 0 && server.refcount == 0))
    {
      refcount := Decremented(refcount);
      r := refcount;
      if r == 0 {
        var _ := server.Release();
        freed := true;
      }
    }

    /** `accepted` is what FCGX_Accept_r produced, None for its -1. */
    method Process(accepted: Option<Connection>) returns (r: int)
      modifies this
      ensures request == accepted && r == (if accepted.Some? then 1 else -1)
      ensures refcount == old(refcount) && freed == old(freed)
    {
      request := accepted;
      r := if accepted.Some? then 1 else -1;
    }

    /** Hands the accepted connection over to a new request; without one it would block. */
    method Acquire() returns (r: int, req: Request?)
      modifies this
      ensures (r == 0 <==> req != null) && (req != null <==> old(request).Some?) && (r == 0 || r == -1)
      ensures req == null ==> refcount == old(refcount)
      ensures req != null ==>
        && fresh(req) && req.refcount == 1 && !req.finished && req.endpoint == this
        && Some(req.connection) == old(request) && refcount == Incremented(old(refcount))
      ensures request == None && freed == old(freed)
    {
      req := null;
      if request.None? {
        r := -1;
        return;
      }
      req := new Request(this);
      r := 0;
    }
  }

  class Request {
    const endpoint: Endpoint
    const connection: Connection
    var refcount: Count
    // FCGX_Finish_r has been called and the request freed.
    var finished: bool

    /** request_create_ takes the connection out of the endpoint and retains the endpoint. */
    constructor (ep: Endpoint)
      requires ep.request.Some?
      modifies ep
      ensures endpoint == ep && Some(connection) == old(ep.request) && refcount == 1 && !finished
      ensures ep.request == None && ep.refcount == Incremented(old(ep.refcount)) && ep.freed == old(ep.freed)
    {
      endpoint := ep;
      connection := ep.request.value;
      refcount, finished := 1, false;
      new;
      var _ := ep.AddRef();
      ep.request := None;
    }

    method AddRef() returns (r: Count)
      modifies this
      ensures r == refcount == Incremented(old(refcount)) && finished == old(finished)
    {
      refcount := Incremented(refcount);
      r := refcount;
    }

    /** The release that reaches zero finishes the connection and drops the endpoint, which in turn
        may drop the server. */
    method Release() returns (r: Count)
      modifies this, endpoint, endpoint.server
      ensures r == refcount == Decremented(old(refcount))
      ensures finished == (old(finished) || r == 0)
      ensures endpoint.refcount == (if r == 0 then Decremented(old(endpoint.refcount)) else old(endpoint.refcount))
      ensures endpoint.freed == (old(endpoint.freed) || (r == 0 && endpoint.refcount == 0))
      ensures endpoint.server.refcount ==
        (if r == 0 && endpoint.refcount == 0 then Decremented(old(endpoint.server.refcount))
         else old(endpoint.server.refcount))
      ensures endpoint.server.freed ==
        (old(endpoint.server.freed) || (r == 0 && endpoint.refcount == 0 && endpoint.server.refcount == 0))
      ensures endpoint.request == old(endpoint.request)
    {
      refcount := Decremented(refcount);
      r := refcount;
      if r == 0 {
        var _ := endpoint.Release();
        finished := true;
      }
    }
  }
}
