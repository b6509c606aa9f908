/** The accept queue and the web server over the handle list. */
module WebServers {
  import opened Tcp
  import opened Handles
  import opened Serving

  /** The listening socket: accepted connections nobody has claimed yet, linked by their `next`. */
  class WiFiServer {
    var unclaimed: ClientContext?
    ghost var queue: seq<ClientContext>

    ghost predicate Linked()
      reads this`unclaimed, this`queue, queue`next
    {
      && (forall i, j :: 0 <= i < j < |queue| ==> queue[i] != queue[j])
      && unclaimed == (if |queue| > 0 then queue[0] else null)
      && (forall i {:trigger queue[i].next} :: 0 <= i < |queue| ==>
            queue[i].next == if i + 1 < |queue| then queue[i + 1] else null)
    }

    /** The contexts in the queue have no owner yet. */
    ghost predicate Unowned()
      reads this`queue, queue`refcnt, queue`freed
    {
      forall i :: 0 <= i < |queue| ==> queue[i].refcnt == 0 && !queue[i].freed
    }

    constructor ()
      ensures Linked() && Unowned() && queue == []
    {
      unclaimed, queue := null, [];
    }

    /** `slist_append_tail` */
    method AppendTail(item: ClientContext)
      requires Linked() && item !in queue && item.next == null
      modifies this`unclaimed, this`queue, queue`next
      ensures Linked() && queue == old(queue) + [item]
    {
      ghost var all := queue + [item];
      if unclaimed == null {
        unclaimed := item;
        queue := all;
        return;
      }
      var last := unclaimed;
      ghost var k := 0;
      while last.next != null
        invariant k < |queue| && last == queue[k]
        decreases |queue| - k
      {
        last := last.next;
        k := k + 1;
      }
      last.next := item;
      queue := all;
      assert forall i :: 0 <= i < |all| - 1 ==> all[i] == old(queue)[i];
    }

    /** `_accept` */
    method Accept() returns (client: ClientContext)
      requires Linked() && Unowned()
      modifies this`unclaimed, this`queue, queue`next
      ensures Linked() && Unowned() && queue == old(queue) + [client] && fresh(client)
    {
      client := new ClientContext();
      AppendTail(client);
    }

    /** `available`: a handle of the connection that waited longest, or an empty handle. */
    method Available(registry: Registry) returns (result: WiFiClient)
      requires Linked() && Unowned() && registry.Valid()
      requires forall i :: 0 <= i < |queue| ==> queue[i] !in registry.claimed
      modifies this`unclaimed, this`queue, queue`refcnt
      modifies registry`first, registry`handles, registry`owners, registry`claimed
      ensures Linked() && Unowned() && registry.Valid() && fresh(result)
      ensures registry.handles == [result] + old(registry.handles)
      ensures if old(queue) == [] then result.client == null && queue == [] && registry.claimed == old(registry.claimed)
              else result.client == old(queue)[0] && queue == old(queue)[1..]
                   && registry.claimed == old(registry.claimed) + {old(queue)[0]}
    {
      if unclaimed != null {
        result := registry.Claim(unclaimed);
        unclaimed := unclaimed.next;
        queue := queue[1..];
      } else {
        result := registry.Construct();
      }
    }
  }

  /** The server: it holds at most one connection, through its own handle. */
  class WebServer {
    const registry: Registry
    const server: WiFiServer
    const currentClient: WiFiClient
    var status: Phase
    var statusChange: nat

    ghost var accepted: seq<ClientContext>  // every connection so far
    ghost var taken: nat  // how many of them left the queue
    ghost var parsed: seq<nat>
    ghost var dispatched: seq<nat>

    ghost predicate Valid()
      reads this, registry, registry.handles, registry.claimed, server, server.queue, currentClient
    {
      taken <= |accepted| && Wired(accepted[taken..]) && Holding()
    }

    /** Handles and queue are in order and `queue` waits, owned by nobody. */
    ghost predicate Wired(queue: seq<ClientContext>)
      reads registry, registry.handles, registry.claimed, server, server.queue
    {
      && registry.Valid() && server.Linked() && server.Unowned()
      && server.queue == queue
      && currentClient in registry.handles
      && (forall i :: 0 <= i < |queue| ==> queue[i] !in registry.claimed)
    }

    /** HC_NONE exactly when no client is held; otherwise it is the one taken last. */
    ghost predicate Holding()
      reads this`status, this`taken, this`accepted, currentClient`client
    {
      if status.Idle? then currentClient.client == null
      else 0 < taken <= |accepted| && currentClient.client == accepted[taken - 1]
    }

    ghost function State(): Server
      reads this
    {
      Server(status, if status.Idle? then [] else [if taken > 0 then taken - 1 else 0], statusChange,
             Numbers(taken, |accepted|),
             |accepted|, parsed, dispatched, FirstN(if status.Idle? || taken == 0 then taken else taken - 1))
    }

    static ghost function Numbers(from: nat, end: nat): seq<nat> {
      if from >= end then [] else seq(end - from, i => from + i)
    }

    static lemma FirstNumber(from: nat, end: nat)
      ensures |Numbers(from, end)| == if from < end then end - from else 0
      ensures from < end ==> Numbers(from, end)[..1] == [from] && Numbers(from, end)[1..] == Numbers(from + 1, end)
    {
    }

    static lemma OneMoreNumber(from: nat, end: nat)
      requires from <= end
      ensures Numbers(from, end + 1) == Numbers(from, end) + [end]
    {
    }

    constructor ()
      ensures Valid() && State() == Serving.Run([])
      ensures fresh(registry) && fresh(server) && fresh(currentClient)
      ensures registry.handles == [currentClient] && registry.claimed == {} && server.queue == []
    {
      var r := new Registry();
      var h := r.Construct();
      registry := r;
      currentClient := h;
      server := new WiFiServer();
      status, statusChange := Idle, 0;
      accepted, taken, parsed, dispatched := [], 0, [], [];
    }

    /** A connection is accepted. */
    method Accept()
      requires Valid()
      modifies this`accepted, server`unclaimed, server`queue, server.queue`next
      ensures Valid() && State() == Serving.Step(old(State()), Serving.Accept)
      ensures forall i :: 0 <= i < |server.queue| ==> server.queue[i] in old(server.queue) || fresh(server.queue[i])
    {
      hide Registry.Valid, Numbers, FirstN;
      OneMoreNumber(taken, |accepted|);
      var client := server.Accept();
      accepted := accepted + [client];
      assert accepted[taken..] == old(accepted)[taken..] + [client];
    }

    /** `_currentClient = WiFiClient()` and HC_NONE: the held connection loses this owner. */
    method Reset()
      requires Valid()
      modifies this`status, registry, registry.handles, registry.claimed
      ensures Valid() && State() == Release(old(State()))
      ensures registry.handles == old(registry.handles) && registry.claimed == old(registry.claimed)
    {
      hide Registry.Valid, Numbers, FirstN;
      ghost var k :| 0 <= k < |registry.handles| && registry.handles[k] == currentClient;
      registry.AssignEmpty(currentClient, k);
      assert registry.handles[k] == currentClient;
      status := Idle;
      FirstNumbers(taken);
    }

    static lemma FirstNumbers(n: nat)
      ensures n > 0 ==> FirstN(n) == FirstN(n - 1) + [n - 1]
      ensures FirstN(n) + [] == FirstN(n)
    {
    }

    /** Nobody is held: the oldest waiting connection is, if there is one. */
    method TakeClient(look: Look) returns (some: bool)
      requires Valid() && status.Idle?
      modifies this`status, this`statusChange, this`taken, registry, registry.handles, registry.claimed
      modifies server`unclaimed, server`queue, server.queue
      ensures Valid() && State() == TakeNext(old(State()), look) && some == !status.Idle?
      ensures registry.handles == old(registry.handles)
      ensures forall c :: c in registry.claimed ==> c in old(registry.claimed) || c in old(server.queue)
      ensures server.queue == old(server.queue) || (|old(server.queue)| > 0 && server.queue == old(server.queue)[1..])
    {
      hide Wired, Numbers, FirstN;
      FirstNumber(taken, |accepted|);
      QueueIsWired(accepted[taken..]);
      var client := Poll(accepted[taken..]);
      if client.client == null {
        Drop(client, accepted[taken..]);
        QueueIsWired(accepted[taken..]);
        return false;
      }
      assert accepted[taken..][1..] == accepted[taken + 1..];
      Hold(client, look.acceptedAt);
      QueueIsWired(accepted[taken..]);
      some := true;
    }

    lemma QueueIsWired(queue: seq<ClientContext>)
      requires Wired(queue)
      ensures server.queue == queue && currentClient in registry.handles
    {
    }

    /** `_server.available()` */
    method Poll(ghost queue: seq<ClientContext>) returns (client: WiFiClient)
      requires Wired(queue)
      modifies server`unclaimed, server`queue, queue`refcnt
      modifies registry`first, registry`handles, registry`owners, registry`claimed
      ensures fresh(client) && registry.handles == [client] + old(registry.handles)
      ensures queue == [] ==> client.client == null && Wired([]) && registry.claimed == old(registry.claimed)
      ensures queue != [] ==> client.client == queue[0] && Wired(queue[1..])
      ensures queue != [] ==> registry.claimed == old(registry.claimed) + {queue[0]}
    {
      hide Registry.Valid;
      client := server.Available(registry);
    }

    /** The empty local handle goes out of scope. */
    method Drop(client: WiFiClient, ghost queue: seq<ClientContext>)
      requires Wired(queue) && |registry.handles| > 0 && registry.handles[0] == client != currentClient
      modifies registry`first, registry`handles, registry`owners, registry.handles`next, registry.claimed
      ensures Wired(queue) && registry.handles == old(registry.handles)[1..]
        && registry.claimed == old(registry.claimed)
    {
      hide Registry.Valid;
      ghost var all := registry.handles;
      registry.Destroy(client, 0);
      assert registry.handles == all[1..];
      assert all == [client] + registry.handles;
    }

    /** `_currentClient = client`, and the local handle goes out of scope. */
    method Hold(client: WiFiClient, now: nat)
      requires taken < |accepted| && Wired(accepted[taken + 1..])
      requires |registry.handles| > 0 && registry.handles[0] == client != currentClient
      requires client.client == accepted[taken]
      modifies this`status, this`statusChange, this`taken
      modifies registry, registry.handles, registry.claimed
      ensures Valid() && registry.handles == old(registry.handles)[1..] && registry.claimed == old(registry.claimed)
      ensures status == WaitRead && statusChange == now && taken == old(taken) + 1
    {
      hide Registry.Valid;
      ghost var k :| 0 <= k < |registry.handles| && registry.handles[k] == currentClient;
      registry.AssignAndDrop(currentClient, k, client);
      assert registry.handles[k - 1] == currentClient;
      status := WaitRead;
      statusChange := now;
      taken := taken + 1;
    }

    /** `handleClient`: one call on the real queue and handles is one step of the state machine. */
    method HandleClient(look: Look)
      requires Valid()
      modifies this, registry, registry.handles, registry.claimed, server`unclaimed, server`queue, server.queue
      ensures Valid() && State() == Serving.HandleClient(old(State()), look)
      ensures registry.handles == old(registry.handles)
      ensures forall c :: c in registry.claimed ==> c in old(registry.claimed) || c in old(server.queue)
      ensures server.queue == old(server.queue) || (|old(server.queue)| > 0 && server.queue == old(server.queue)[1..])
    {
      hide Valid, Serve, Numbers, FirstN;
      if status.Idle? {
        var some := TakeClient(look);
        if !some {
          return;
        }
      }
      ServeClient(look);
    }

    /** What is done about the client that is held. */
    method ServeClient(look: Look)
      requires Valid() && !status.Idle?
      modifies this`status, this`statusChange, this`parsed, this`dispatched, registry, registry.handles,
        registry.claimed
      ensures Valid() && State() == Serve(old(State()), look)
      ensures registry.handles == old(registry.handles) && registry.claimed == old(registry.claimed)
    {
      hide Wired, Numbers, FirstN, Elapsed;
      if !look.connected {
        Reset();
        return;
      }
      if status.WaitRead? {
        if !look.dataReady {
          if Elapsed(statusChange, look.checkedAt) > MAX_DATA_WAIT {
            Reset();
          }
          return;
        }
        parsed := parsed + [taken - 1];
        if !look.parseOk {
          Reset();
          return;
        }
        dispatched := dispatched + [taken - 1];
        if !look.stillConnected {
          Reset();
        } else {
          status := WaitClose;
          statusChange := look.handledAt;
        }
        return;
      }
      if Elapsed(statusChange, look.checkedAt) > MAX_CLOSE_WAIT {
        Reset();
      }
    }
  }

  /** Every run of the server over its real queue, handles and reference counts is a run of the state machine. */
  method Run(events: seq<Serving.Event>) returns (web: WebServer)
    ensures web.Valid() && web.State() == Serving.Run(events)
  {
    hide WebServer.Valid, WebServer.State, HandleClient;
    web := new WebServer();
    for n := 0 to |events|
      invariant web.Valid() && web.State() == Serving.Run(events[..n])
      invariant fresh(web) && fresh(web.registry) && fresh(web.server)
      invariant fresh(web.registry.handles) && fresh(web.registry.claimed) && fresh(web.server.queue)
    {
      assert events[..n + 1][..n] == events[..n] && events[..n + 1][n] == events[n];
      match events[n] {
        case Accept => web.Accept();
        case Call(look) => web.HandleClient(look);
      }
    }
    assert events[..|events|] == events;
  }
}
