/**
 * The WebSocket client sets of the GPS and ADCP servers. A JavaScript `Set`
 * of sockets is an insertion-ordered sequence without repeats; `forEach`
 * visits it in that order. What the servers send is recorded in a ghost log
 * of deliveries, so that contracts can say who received which message.
 */
module Subscribers {

  /** `WebSocket.OPEN`. */
  const OPEN := 1

  /** A connected WebSocket as the servers see it: only its `readyState` is read. */
  class Socket {
    var readyState: int

    constructor (state: int)
      ensures readyState == state
    {
      readyState := state;
    }
  }

  /** One `send` call: the socket and the message it was given. */
  datatype Delivery<M> = Delivery(to: Socket, message: M)

  predicate Distinct<T(==)>(s: seq<T>) {
    forall i, j :: 0 <= i < j < |s| ==> s[i] != s[j]
  }

  /** `set.delete(x)`: `s` without `x`, order kept. */
  function Without<T(==)>(s: seq<T>, x: T): (r: seq<T>)
    ensures x !in r
    ensures forall i :: 0 <= i < |r| ==> r[i] in s && r[i] != x
    ensures forall i :: 0 <= i < |s| && s[i] != x ==> s[i] in r
  {
    if s == [] then []
    else if s[|s| - 1] == x then Without(s[..|s| - 1], x)
    else Without(s[..|s| - 1], x) + [s[|s| - 1]]
  }

  /** Deleting a member that is absent changes nothing. */
  lemma {:induction false} WithoutAbsent<T>(s: seq<T>, x: T)
    requires x !in s
    ensures Without(s, x) == s
  {
    if s != [] {
      assert x !in s[..|s| - 1];
      WithoutAbsent(s[..|s| - 1], x);
    }
  }

  /** Deleting twice is deleting once. */
  lemma WithoutIdempotent<T>(s: seq<T>, x: T)
    ensures Without(Without(s, x), x) == Without(s, x)
  {
    WithoutAbsent(Without(s, x), x);
  }

  /** Deleting keeps the members distinct. */
  lemma {:induction false} WithoutDistinct<T>(s: seq<T>, x: T)
    requires Distinct(s)
    ensures Distinct(Without(s, x))
  {
    if s != [] {
      var init := s[..|s| - 1];
      assert Distinct(init);
      WithoutDistinct(init, x);
      assert s[|s| - 1] !in init;
    }
  }

  /**
   * What one broadcast of `m` sends to `clients`, in set order: the message
   * goes to every client whose state is OPEN and to no other.
   */
  ghost function Fanout<M>(clients: seq<Socket>, m: M): seq<Delivery<M>>
    reads clients
  {
    if clients == [] then []
    else
      var last := clients[|clients| - 1];
      Fanout(clients[..|clients| - 1], m) + if last.readyState == OPEN then [Delivery(last, m)] else []
  }

  /** A broadcast delivers exactly `m`, to exactly the OPEN clients. */
  lemma {:induction false} FanoutRecipients<M>(clients: seq<Socket>, m: M, d: Delivery<M>)
    ensures d in Fanout(clients, m) <==> d.to in clients && d.to.readyState == OPEN && d.message == m
  {
    if clients != [] {
      var init := clients[..|clients| - 1];
      FanoutRecipients(init, m, d);
      assert clients == init + [clients[|clients| - 1]];
    }
  }

  /** Over distinct clients, no client receives a broadcast twice. */
  lemma {:induction false} FanoutOnce<M>(clients: seq<Socket>, m: M)
    requires Distinct(clients)
    ensures Distinct(Fanout(clients, m))
  {
    if clients != [] {
      var init := clients[..|clients| - 1];
      var last := clients[|clients| - 1];
      assert Distinct(init);
      FanoutOnce(init, m);
      if last.readyState == OPEN {
        FanoutRecipients(init, m, Delivery(last, m));
        assert last !in init;
      }
    }
  }

  /**
   * A server's client set with the log of what it sent. `Valid` holds that
   * the set has no repeats, as a JavaScript `Set` never does.
   */
  class Registry<M> {
    var clients: seq<Socket>
    ghost var sent: seq<Delivery<M>>

    ghost predicate Valid()
      reads this
    {
      Distinct(clients)
    }

    /** `new Set()`, nothing sent yet. */
    constructor ()
      ensures Valid() && clients == [] && sent == []
    {
      clients := [];
      sent := [];
    }

    /** `clients.add(ws)`: appended when absent, otherwise no change. */
    method Add(ws: Socket)
      requires Valid()
      modifies this
      ensures Valid()
      ensures clients == if ws in old(clients) then old(clients) else old(clients) + [ws]
      ensures sent == old(sent)
    {
      if ws !in clients {
        clients := clients + [ws];
      }
    }

    /** `clients.delete(ws)`: removed when present; deleting an absent client is a no-op. */
    method Remove(ws: Socket)
      requires Valid()
      modifies this
      ensures Valid()
      ensures clients == Without(old(clients), ws)
      ensures ws !in old(clients) ==> clients == old(clients)
      ensures sent == old(sent)
    {
      WithoutDistinct(clients, ws);
      if ws !in clients {
        WithoutAbsent(clients, ws);
      }
      clients := Without(clients, ws);
    }

    /** `ws.send(m)`. */
    method Send(ws: Socket, m: M)
      modifies this
      ensures clients == old(clients)
      ensures sent == old(sent) + [Delivery(ws, m)]
    {
      sent := sent + [Delivery(ws, m)];
    }

    /** `clients.forEach(c => { if (c.readyState === 1) c.send(m) })`. */
    method Broadcast(m: M)
      modifies this
      ensures clients == old(clients)
      ensures sent == old(sent) + Fanout(clients, m)
    {
      var i := 0;
      while i < |clients|
        invariant 0 <= i <= |clients| && clients == old(clients)
        invariant sent == old(sent) + Fanout(clients[..i], m)
      {
        var c := clients[i];
        assert clients[..i + 1][..i] == clients[..i];
        if c.readyState == OPEN {
          Send(c, m);
        }
        i := i + 1;
      }
      assert clients[..i] == clients;
    }
  }
}
