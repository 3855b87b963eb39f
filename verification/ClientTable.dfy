/** The server's client table and the parts of its select loop that use it, updated in place. */
module ClientTable {
  import opened ClientLists
  import opened ServicePass

  class Server {
    const descriptors: Descriptors
    const connected_clients: array<ClientInfo>
    var num_connected_clients: nat

    /** The live clients in connection order. */
    ghost function Clients(): (cs: seq<ClientInfo>)
      requires num_connected_clients <= connected_clients.Length
      reads this, connected_clients
      ensures |cs| == num_connected_clients
    {
      connected_clients[..num_connected_clients]
    }

    /** Slots below the count hold live clients; the others are free. */
    ghost predicate Valid()
      reads this, connected_clients
    {
      && connected_clients.Length == MAX_CLIENTS
      && num_connected_clients <= MAX_CLIENTS
      && descriptors.Valid(Clients())
      && forall i :: num_connected_clients <= i < MAX_CLIENTS ==> connected_clients[i] == FREE
    }

    constructor (descriptors: Descriptors)
      requires descriptors.Valid([])
      ensures Valid() && fresh(connected_clients) && Clients() == [] && this.descriptors == descriptors
    {
      this.descriptors := descriptors;
      connected_clients := new ClientInfo[MAX_CLIENTS](_ => FREE);
      num_connected_clients := 0;
      new;
      assert Clients() == [];
    }

    /** accept and authentication yield a descriptor and a role; role -1 means the client was turned away. */
    method AcceptNewConnection(accepted: int, client_role: int) returns (client_socket: int)
      requires Valid() && num_connected_clients < MAX_CLIENTS
      requires accepted > 0 && accepted !in descriptors.All() && accepted !in Sockets(Clients())
      modifies this`num_connected_clients, connected_clients
      ensures Valid()
      ensures Clients() == if client_role == -1 then old(Clients()) else old(Clients()) + [ClientInfo(accepted, client_role)]
      ensures client_socket == if client_role == -1 then -1 else accepted
    {
      if client_role == -1 {
        return -1;
      }
      ghost var before := Clients();
      assert forall i :: 0 <= i < |before| ==> before[i].socket in Sockets(before);
      connected_clients[num_connected_clients] := ClientInfo(accepted, client_role);
      num_connected_clients := num_connected_clients + 1;
      ghost var after := before + [ClientInfo(accepted, client_role)];
      assert Clients() == after;
      forall fd | fd in Sockets(after)
        ensures fd in Sockets(before) + {accepted}
      {
        var k :| 0 <= k < |after| && after[k].socket == fd;
        assert k < |before| ==> after[k] == before[k];
      }
      return accepted;
    }

    /** Closes the gap the client leaves and frees the last slot. */
    method DisconnectClient(client_index: nat)
      requires Valid() && client_index < num_connected_clients
      modifies this`num_connected_clients, connected_clients
      ensures Valid()
      ensures Clients() == old(Clients()[..client_index] + Clients()[client_index + 1..])
    {
      ghost var before := Clients();
      RemovalStaysValid(descriptors, before, client_index);
      hide Sockets;
      for j := client_index to num_connected_clients - 1
        invariant num_connected_clients == |before|
        invariant forall k :: 0 <= k < connected_clients.Length ==>
                                connected_clients[k] == old(connected_clients[if client_index <= k < j then k + 1 else k])
      {
        connected_clients[j] := connected_clients[j + 1];
      }
      connected_clients[num_connected_clients - 1] := FREE;
      num_connected_clients := num_connected_clients - 1;
      ghost var after := before[..client_index] + before[client_index + 1..];
      assert Clients() == after;
    }

    method DisconnectAllClients()
      requires Valid()
      modifies this`num_connected_clients, connected_clients
      ensures Valid() && Clients() == []
    {
      for i := 0 to num_connected_clients
        invariant forall k :: 0 <= k < MAX_CLIENTS ==>
                                connected_clients[k] == if k < i then FREE else old(connected_clients[k])
      {
        assert old(Clients())[i] == connected_clients[i];
        if connected_clients[i].socket > 0 {
          connected_clients[i] := FREE;
        }
      }
      num_connected_clients := 0;
      assert Clients() == [];
    }

    /** Collects the descriptors to wait for and the largest of them; in bounds exactly when Scan is. */
    method BuildReadSet() returns (read_fds: set<int>, max_socket_fd: int)
      requires Valid()
      requires Scan(Slots(Clients()), 0, descriptors.Largest()).Found?
      ensures read_fds == descriptors.All() + Sockets(Clients())
      ensures IsLargest(descriptors, Clients(), max_socket_fd)
      ensures max_socket_fd >= num_connected_clients + 3
    {
      ghost var cs := Clients();
      ghost var slots := Slots(cs);
      assert connected_clients[..] == slots;
      ScanReachesEveryClient(descriptors, cs);
      hide Slots, IsLargest;
      read_fds := {descriptors.server, descriptors.alerts, descriptors.emergencies};
      max_socket_fd := if descriptors.server > descriptors.alerts then descriptors.server else descriptors.alerts;
      max_socket_fd := if max_socket_fd > descriptors.emergencies then max_socket_fd else descriptors.emergencies;
      ghost var r := Scan(slots, 0, descriptors.Largest());
      var i := 0;
      while i < max_socket_fd
        invariant 0 <= i <= MAX_CLIENTS
        invariant Scan(slots, i, max_socket_fd) == r
        invariant forall fd :: fd in read_fds <==> fd in descriptors.All() || exists k :: 0 <= k < i && k < |cs| && cs[k].socket == fd
        decreases MAX_CLIENTS - i
      {
        var client_socket := connected_clients[i].socket;
        assert slots[i] == connected_clients[i];
        assert i < |cs| ==> cs[i] == connected_clients[i];
        if client_socket > 0 {
          read_fds := read_fds + {client_socket};
        }
        if client_socket > max_socket_fd {
          max_socket_fd := client_socket;
        }
        i := i + 1;
      }
      assert max_socket_fd == r.fd;
      forall fd
        ensures fd in Sockets(cs) <==> exists k :: 0 <= k < |cs| && cs[k].socket == fd
      {
      }
    }

    /** Disconnecting the client at a position splits off the first entry from that position on. */
    method RemoveAt(i: nat, ghost passed: seq<ClientInfo>, ghost rest: seq<ClientInfo>)
      requires Valid() && Clients() == passed + rest && |passed| == i && rest != []
      modifies this`num_connected_clients, connected_clients
      ensures Valid() && Clients() == passed + rest[1..]
    {
      DisconnectClient(i);
    }

    /** The loop body at slot i, where `passed` are the clients before the slot and `ahead` those from it on. */
    method ServeSlot(i: nat, ready: set<int>, hung: set<int>, served: seq<ClientInfo>,
                     ghost passed: seq<ClientInfo>, ghost ahead: seq<ClientInfo>)
      returns (served': seq<ClientInfo>, ghost passed': seq<ClientInfo>, ghost ahead': seq<ClientInfo>)
      requires Valid() && i < MAX_CLIENTS && Clients() == passed + ahead
      requires if ahead == [] then |passed| <= i else |passed| == i
      modifies this`num_connected_clients, connected_clients
      ensures Valid() && Clients() == passed' + ahead' && num_connected_clients <= old(num_connected_clients)
      ensures if ahead' == [] then |passed'| <= i + 1 else |passed'| == i + 1
      ensures served' + Pass(ahead', ready, hung).served == served + Pass(ahead, ready, hung).served
      ensures passed' + Pass(ahead', ready, hung).kept == passed + Pass(ahead, ready, hung).kept
    {
      hide Pass;
      served', passed', ahead' := served, passed, ahead;
      var client := connected_clients[i];
      if ahead != [] {
        assert (passed + ahead)[i] == ahead[0] == client;
        PassAdvances(served, passed, ahead, ready, hung);
      }
      var isRead := client.socket > 0 && client.socket in ready;
      if isRead {
        served' := served + [client];
        if client.socket in hung {
          RemoveAt(i, passed, ahead);
        }
      }
      if ahead != [] {
        ghost var removed := isRead && client.socket in hung;
        passed' := passed + if removed then MovedUp(ahead) else [ahead[0]];
        ahead' := StillAhead(ahead, removed);
      }
    }

    /**
     * Serves the ready clients. A read of 0 bytes is a hang-up and removes the client; the entries read are
     * returned in order, each with the role under which its command is executed.
     */
    method ServeClients(ready: set<int>, hung: set<int>, max_socket_fd: nat) returns (served: seq<ClientInfo>)
      requires Valid() && num_connected_clients <= max_socket_fd <= MAX_CLIENTS
      modifies this`num_connected_clients, connected_clients
      ensures Valid()
      ensures served == old(Pass(Clients(), ready, hung).served)
      ensures Clients() == old(Pass(Clients(), ready, hung).kept)
    {
      hide Pass;
      served := [];
      ghost var all := Pass(Clients(), ready, hung);
      ghost var passed: seq<ClientInfo>, ahead := [], Clients();
      for i := 0 to max_socket_fd
        invariant Valid() && Clients() == passed + ahead && num_connected_clients <= max_socket_fd
        invariant if ahead == [] then |passed| <= i else |passed| == i
        invariant served + Pass(ahead, ready, hung).served == all.served
        invariant passed + Pass(ahead, ready, hung).kept == all.kept
      {
        served, passed, ahead := ServeSlot(i, ready, hung, served, passed, ahead);
      }
      NothingAhead(ready, hung);
    }

    /**
     * One iteration of the server loop. The environment supplies the connection that arrived, if any, which of the
     * awaited clients are ready, which of those have hung up, and whether an emergency came in.
     */
    method ServeOnce(arrived: bool, accepted: int, client_role: int, ready: set<int>, hung: set<int>, emergency: bool)
      returns (served: seq<ClientInfo>)
      requires Valid()
      requires Scan(Slots(Clients()), 0, descriptors.Largest()).Found?
      requires arrived ==> accepted > 0 && accepted !in descriptors.All() && accepted !in Sockets(Clients())
      modifies this`num_connected_clients, connected_clients
      ensures Valid()
      ensures var listed := if arrived && client_role != -1 then old(Clients()) + [ClientInfo(accepted, client_role)]
                            else old(Clients());
              && served == Pass(listed, ready, hung).served
              && Clients() == if emergency then [] else Pass(listed, ready, hung).kept
    {
      hide Pass, Slots, Scan;
      ScanReachesEveryClient(descriptors, Clients());
      var read_fds, max_socket_fd := BuildReadSet();
      if arrived {
        NeverFull(descriptors, Clients());
        if num_connected_clients < MAX_CLIENTS {
          var _ := AcceptNewConnection(accepted, client_role);
        }
      }
      served := ServeClients(ready, hung, max_socket_fd);
      if emergency {
        DisconnectAllClients();
      }
    }
  }
}
