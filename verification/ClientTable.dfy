/** The TCP server's table of connected clients: parallel arrays of sockets and peer addresses, slot 0
    holding the listening socket. Each method here is one section under the mutex. */
module ClientTable {

  const MAX_CLIENTS: nat := 256

  datatype Address = Address(ip: nat, port: nat)

  const NO_ADDRESS := Address(0, 0)

  datatype Client = Client(sock: int, addr: Address)

  const NO_CLIENT := Client(0, NO_ADDRESS)

  datatype Error = NoError | DisconnectError | MaxClientsError

  // ---- The table as a sequence: the client in slot i is clients[i - 1] ----

  function Slot(clients: seq<Client>, i: nat): Client
    requires i >= 1
  {
    if i <= |clients| then clients[i - 1] else NO_CLIENT
  }

  function Without(clients: seq<Client>, cid: nat): seq<Client>
    requires 1 <= cid <= |clients|
  {
    clients[..cid - 1] + clients[cid..]
  }

  function Zip(socks: seq<int>, addrs: seq<Address>): (c: seq<Client>)
    requires |socks| == |addrs|
    ensures |c| == |socks| && forall i :: 0 <= i < |c| ==> c[i] == Client(socks[i], addrs[i])
  {
    seq(|socks|, i requires 0 <= i < |socks| => Client(socks[i], addrs[i]))
  }

  lemma WithoutIs(clients: seq<Client>, after: seq<Client>, cid: nat)
    requires 1 <= cid <= |clients| == |after| + 1
    requires forall j :: 0 <= j < |after| ==> after[j] == clients[if j < cid - 1 then j else j + 1]
    ensures after == Without(clients, cid)
  {
  }

  class Table {
    const socks: array<int>
    const addrs: array<Address>
    var count: nat
    var error: Error
    /** The descriptors the process holds open. */
    ghost var open: set<int>

    ghost predicate Valid()
      reads this`count, socks, addrs
    {
      && socks.Length == addrs.Length == MAX_CLIENTS
      && 1 <= count <= MAX_CLIENTS
      && (forall i :: count <= i < MAX_CLIENTS ==> socks[i] == 0 && addrs[i] == NO_ADDRESS)
    }

    /** Every entered socket is a real descriptor. */
    ghost predicate Live()
      reads this`count, socks
      requires socks.Length == MAX_CLIENTS && count <= MAX_CLIENTS
    {
      forall i :: 1 <= i < count ==> socks[i] > 0
    }

    ghost function Clients(): (c: seq<Client>)
      reads this`count, socks, addrs
      requires Valid()
      ensures |c| == count - 1
      ensures forall i :: 1 <= i < count ==> c[i - 1] == Client(socks[i], addrs[i])
    {
      Zip(socks[1..count], addrs[1..count])
    }

    /** A server set up in a zeroed context. */
    constructor Init(listening: int)
      ensures Valid() && Live() && Clients() == [] && socks[0] == listening && open == {listening}
      ensures fresh(socks) && fresh(addrs)
    {
      socks := new int[MAX_CLIENTS](_ => 0);
      addrs := new Address[MAX_CLIENTS](_ => NO_ADDRESS);
      count := 1;
      error := NoError;
      open := {listening};
      new;
      socks[0] := listening;
    }

    method Count() returns (n: nat)
      requires Valid()
      ensures n == |Clients()| + 1
    {
      n := count;
    }

    /** Reads a slot by an index that may be stale. */
    method Take(i: nat) returns (c: Client)
      requires Valid() && 1 <= i < MAX_CLIENTS
      ensures c == Slot(Clients(), i)
    {
      c := Client(socks[i], addrs[i]);
    }

    /** The shifting loop: every later slot moves down by one. */
    method ShiftDown(cid: nat)
      requires socks.Length == addrs.Length == MAX_CLIENTS && 1 <= cid < count <= MAX_CLIENTS
      modifies socks, addrs
      ensures forall j :: cid <= j < count - 1 ==> socks[j] == old(socks[j + 1])
      ensures forall j :: cid <= j < count - 1 ==> addrs[j] == old(addrs[j + 1])
      ensures forall j :: 0 <= j < cid || count - 1 <= j < MAX_CLIENTS ==> socks[j] == old(socks[j])
      ensures forall j :: 0 <= j < cid || count - 1 <= j < MAX_CLIENTS ==> addrs[j] == old(addrs[j])
    {
      for i := cid to count - 1
        invariant forall j :: cid <= j < i ==> socks[j] == old(socks[j + 1])
        invariant forall j :: cid <= j < i ==> addrs[j] == old(addrs[j + 1])
        invariant forall j :: 0 <= j < cid || i <= j < MAX_CLIENTS ==> socks[j] == old(socks[j])
        invariant forall j :: 0 <= j < cid || i <= j < MAX_CLIENTS ==> addrs[j] == old(addrs[j])
      {
        socks[i] := socks[i + 1];
        addrs[i] := addrs[i + 1];
      }
    }

    /** Closes a client and shifts the later ones down. */
    method Disconnect(cid: nat) returns (ok: bool)
      requires Valid()
      modifies this`count, this`error, this`open, socks, addrs
      ensures Valid() && socks[0] == old(socks[0]) && addrs[0] == old(addrs[0])
      ensures ok <==> 1 <= cid <= |old(Clients())| && old(Clients())[cid - 1].sock > 0
      ensures old(Live()) ==> Live()
      ensures ok ==> && Clients() == Without(old(Clients()), cid)
                     && open == old(open) - {old(Clients())[cid - 1].sock}
                     && error == old(error)
      ensures !ok ==> Clients() == old(Clients()) && open == old(open) && error == DisconnectError
    {
      hide Clients, Without;
      if cid < 1 || cid >= count {
        error := DisconnectError;
        return false;
      }
      var sock := socks[cid];
      if sock <= 0 {
        error := DisconnectError;
        return false;
      }
      if socks[cid] > 0 {
        open := open - {socks[cid]};
      }
      RemoveSlot(cid);
      ok := true;
    }

    /** Clears a slot, closes the gap and clears the last slot. */
    method RemoveSlot(cid: nat)
      requires Valid() && 1 <= cid < count
      modifies this`count, socks, addrs
      ensures Valid() && socks[0] == old(socks[0]) && addrs[0] == old(addrs[0])
      ensures Clients() == Without(old(Clients()), cid)
      ensures old(Live()) ==> Live()
    {
      hide Clients, Without;
      socks[cid] := 0;
      addrs[cid] := NO_ADDRESS;
      ShiftDown(cid);
      socks[count - 1] := 0;
      addrs[count - 1] := NO_ADDRESS;
      count := count - 1;
      ghost var before, after := old(Clients()), Clients();
      forall j | 0 <= j < |after|
        ensures after[j] == before[if j < cid - 1 then j else j + 1]
      {
        assert after[j] == Client(socks[j + 1], addrs[j + 1]);
      }
      WithoutIs(before, after, cid);
    }

    /** Enters an accepted connection, or closes it when the table is full. */
    method Admit(cs: int, addr: Address) returns (ok: bool)
      requires Valid() && cs > 0
      modifies this`count, this`error, this`open, socks, addrs
      ensures Valid() && socks[0] == old(socks[0]) && addrs[0] == old(addrs[0])
      ensures ok <==> |old(Clients())| + 1 < MAX_CLIENTS
      ensures old(Live()) ==> Live()
      ensures ok ==> Clients() == old(Clients()) + [Client(cs, addr)] && open == old(open) && error == old(error)
      ensures !ok ==> Clients() == old(Clients()) && open == old(open) - {cs} && error == MaxClientsError
    {
      if count >= MAX_CLIENTS {
        error := MaxClientsError;
        if cs > 0 {
          open := open - {cs};
        }
        return false;
      }
      var idx := count;
      socks[idx] := cs;
      addrs[idx] := addr;
      count := count + 1;
      ok := true;
    }
  }
}
