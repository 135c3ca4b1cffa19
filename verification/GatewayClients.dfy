/** The gateway's service clients: parallel slices and a cursor that treats all as healthy. */
module GatewayClients {
  import opened CyclicScan
  import opened Wrappers

  datatype Error = NotFound | NotHealthy | UnknownService | NoInstances | NoConnection

  /** A dialled connection, by identity. */
  type Conn = nat

  /** A typed client over a connection; NoStub is what an unknown service name yields on update. */
  datatype Stub = UserStub(conn: Conn) | OrderStub(conn: Conn) | NoStub

  const USER_SERVICE := "user.UserService"
  const ORDER_SERVICE := "order.OrderService"

  function StubFor(name: string, conn: Conn): Stub {
    if name == USER_SERVICE then UserStub(conn)
    else if name == ORDER_SERVICE then OrderStub(conn)
    else NoStub
  }

  /** Which client a service name gets. */
  lemma ClientKinds(name: string, conn: Conn)
    ensures StubFor("user.UserService", conn) == UserStub(conn)
    ensures StubFor("order.OrderService", conn) == OrderStub(conn)
    ensures name != "user.UserService" && name != "order.OrderService" ==> StubFor(name, conn) == NoStub
  {
  }

  /** The connections among the dial results, in order: failed dials are skipped. */
  function Dialled(dials: seq<Option<Conn>>): seq<Conn> {
    if dials == [] then []
    else Dialled(dials[..|dials| - 1]) + if dials[|dials| - 1].Some? then [dials[|dials| - 1].value] else []
  }

  /** Which connections a list of dial results gives, in which order: each that worked, as it comes. */
  lemma {:induction false} DialledExactly(a: seq<Option<Conn>>, b: seq<Option<Conn>>, conn: Conn)
    ensures Dialled(a + b) == Dialled(a) + Dialled(b)
    ensures Dialled([Some(conn)]) == [conn] && Dialled([None]) == [] && Dialled([]) == []
    decreases |b|
  {
    assert [Some(conn)][..0] == [];
    if b == [] {
      assert a + b == a;
    } else {
      var n := |b| - 1;
      assert (a + b)[..|a| + n] == a + b[..n] && (a + b)[|a| + n] == b[n];
      DialledExactly(a, b[..n], conn);
    }
  }

  lemma {:induction false} DialledPrefix(dials: seq<Option<Conn>>, k: nat)
    requires k <= |dials|
    ensures Dialled(dials[..k]) <= Dialled(dials)
    decreases |dials|
  {
    if k == |dials| {
      assert dials[..k] == dials;
    } else {
      assert dials[..|dials| - 1][..k] == dials[..k];
      DialledPrefix(dials[..|dials| - 1], k);
    }
  }

  function Stubs(name: string, conns: seq<Conn>): (stubs: seq<Stub>)
    ensures |stubs| == |conns|
  {
    seq(|conns|, i requires 0 <= i < |conns| => StubFor(name, conns[i]))
  }

  class ServiceClient {
    var connections: seq<Conn>
    var clients: seq<Stub>
    var currentIdx: nat
    var healthy: bool

    ghost predicate Valid(name: string)
      reads this
    {
      && clients == Stubs(name, connections)
      && (if connections == [] then currentIdx == 0 else currentIdx < |connections|)
      && (healthy <==> connections != [])
    }

    constructor (name: string, conns: seq<Conn>)
      requires conns != []
      ensures Valid(name) && connections == conns && currentIdx == 0
    {
      connections := conns;
      clients := Stubs(name, conns);
      currentIdx := 0;
      healthy := true;
    }
  }

  class ClientManager {
    var clients: map<string, ServiceClient>
    ghost var closed: seq<Conn>  // the connections closed so far, in order

    ghost predicate Valid()
      reads this, clients.Values
    {
      && (forall name | name in clients :: clients[name].Valid(name))
      && (forall a, b | a in clients && b in clients && a != b :: clients[a] != clients[b])
    }

    constructor ()
      ensures Valid() && clients == map[] && closed == []
    {
      clients := map[];
      closed := [];
    }

    /**
     `dials` is what dialling each discovered instance gives. An unknown service is only noticed
     at the first instance that answers, and the connection to it is closed.
     */
    method InitServiceClient(name: string, dials: seq<Option<Conn>>) returns (r: Result<(), Error>)
      requires Valid()
      modifies this`clients, this`closed
      ensures Valid()
      ensures r == if dials == [] then Err(NoInstances)
                   else if Dialled(dials) == [] then Err(NoConnection)
                   else if StubFor(name, 0) == NoStub then Err(UnknownService)
                   else Ok(())
      ensures closed == old(closed) + if r == Err(UnknownService) then [Dialled(dials)[0]] else []
      ensures r.Err? ==> clients == old(clients)
      ensures r.Ok? ==> name in clients && clients == old(clients)[name := clients[name]] && fresh(clients[name])
                        && clients[name].connections == Dialled(dials) && clients[name].currentIdx == 0
    {
      if dials == [] {
        return Err(NoInstances);
      }
      var conns: seq<Conn> := [];
      for i := 0 to |dials|
        invariant conns == Dialled(dials[..i])
        invariant conns != [] ==> StubFor(name, 0) != NoStub
        invariant closed == old(closed) && clients == old(clients)
      {
        assert dials[..i + 1][..i] == dials[..i];
        if dials[i].Some? {
          conns := conns + [dials[i].value];
          if StubFor(name, dials[i].value) == NoStub {
            closed := closed + [dials[i].value];
            DialledPrefix(dials, i + 1);
            return Err(UnknownService);
          }
        }
      }
      assert dials[..|dials|] == dials;
      if conns == [] {
        return Err(NoConnection);
      }
      var client := new ServiceClient(name, conns);
      clients := clients[name := client];
      return Ok(());
    }

    method UpdateServiceClient(name: string, dials: seq<Option<Conn>>) returns (r: Result<(), Error>)
      requires Valid()
      modifies this`closed, clients.Values
      ensures Valid()
      ensures r == if name in clients then Ok(()) else Err(NotFound)
      ensures closed == old(closed) + if name in clients then old(clients[name].connections) else []
      ensures name in clients ==> clients[name].connections == Dialled(dials) && clients[name].currentIdx == 0
      ensures forall other | other in clients && other != name ::
                clients[other].connections == old(clients[other].connections)
                && clients[other].currentIdx == old(clients[other].currentIdx)
    {
      if name !in clients {
        return Err(NotFound);
      }
      var client := clients[name];
      closed := closed + client.connections;
      client.connections, client.clients, client.currentIdx := [], [], 0;
      for i := 0 to |dials|
        invariant client.connections == Dialled(dials[..i]) && client.clients == Stubs(name, client.connections)
        invariant client.currentIdx == 0 && closed == old(closed) + old(client.connections)
        invariant forall other | other in clients && other != name ::
                    clients[other].Valid(other)
                    && clients[other].connections == old(clients[other].connections)
                    && clients[other].currentIdx == old(clients[other].currentIdx)
      {
        assert dials[..i + 1][..i] == dials[..i];
        if dials[i].Some? {
          client.connections := client.connections + [dials[i].value];
          client.clients := client.clients + [StubFor(name, dials[i].value)];
        }
      }
      assert dials[..|dials|] == dials;
      client.healthy := |client.connections| > 0;
      return Ok(());
    }

    method GetServiceClient(name: string) returns (r: Result<Stub, Error>)
      requires Valid()
      modifies clients.Values
      ensures Valid()
      ensures name !in clients ==> r == Err(NotFound)
      ensures name in clients && clients[name].connections == [] ==> r == Err(NotHealthy)
      ensures name in clients && clients[name].connections != [] ==>
                var client, n := clients[name], |clients[name].connections|;
                && Live(FullRing(n)) && old(client.currentIdx) < n
                && r == Ok(StubFor(name, client.connections[Seek(FullRing(n), old(client.currentIdx))]))
                && client.currentIdx == Succ(n, Seek(FullRing(n), old(client.currentIdx)))
      ensures r.Ok? && name == "user.UserService" ==> r.value.UserStub?
      ensures r.Ok? && name == "order.OrderService" ==> r.value.OrderStub?
      ensures r.Ok? && !r.value.NoStub? ==> r.value.conn in clients[name].connections
      ensures forall other | other in clients :: clients[other].connections == old(clients[other].connections)
      ensures forall other | other in clients && other != name ::
                clients[other].currentIdx == old(clients[other].currentIdx)
    {
      if name !in clients {
        return Err(NotFound);
      }
      var client := clients[name];
      if !client.healthy || |client.clients| == 0 {
        return Err(NotHealthy);
      }
      assert FullRing(|client.clients|)[client.currentIdx] == client.currentIdx;
      r := Ok(client.clients[client.currentIdx]);
      Wraps(client.currentIdx + 1, |client.clients|);
      client.currentIdx := (client.currentIdx + 1) % |client.clients|;
    }
  }
}
