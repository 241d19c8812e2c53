/** The two threads at work on the mutable table. Each method is one step of the state machine. */
module Server {
  import opened ClientTable
  import opened ServerThreads

  class Server {
    const table: Table
    var listener: Listener
    var accepter: Accepter
    ghost var admitted: seq<Client>
    ghost var pass: Pass

    ghost predicate Valid()
      reads this, table, table.socks, table.addrs
    {
      table.Valid() && Inv(Now())
    }

    ghost function Now(): State
      reads this, table, table.socks, table.addrs
      requires table.Valid()
    {
      State(table.socks[0], table.Clients(), table.open, listener, accepter, admitted, pass)
    }

    /** A server whose two threads have just been started. */
    constructor Start(listening: int)
      ensures Valid() && Now() == Initial(listening)
    {
      table := new Table.Init(listening);
      listener, accepter := Idle, Waiting;
      admitted, pass := [], Pass([], [], [], 0);
      new;
      InitialInv(listening);
    }

    /** Start of a pass: the number of clients, read under the mutex. */
    method BeginPass()
      requires Valid() && listener.Idle?
      modifies this`listener, this`pass
      ensures Valid() && Now() == Step(old(Now()), Snapshot)
    {
      hide Inv;
      StepInv(Now(), Snapshot);
      var n := table.Count();
      listener := Polling(n, 1);
      pass := Pass(table.Clients(), [], [], 0);
    }

    method FinishPass()
      requires Valid() && Enabled(Now(), EndPass)
      modifies this`listener
      ensures Valid() && Now() == Step(old(Now()), EndPass)
    {
      hide Inv;
      StepInv(Now(), EndPass);
      listener := Idle;
    }

    /** Reads the next slot under the mutex; an empty one is passed over. */
    method TakeSlot()
      requires Valid() && Enabled(Now(), Take)
      modifies this`listener
      ensures Valid() && Now() == Step(old(Now()), Take)
    {
      InvBoundsPass(Now());
      hide Inv;
      StepInv(Now(), Take);
      var c := table.Take(listener.i);
      if c.sock <= 0 {
        listener := Polling(listener.count, listener.i + 1);
      } else {
        listener := Receiving(listener.count, listener.i, c);
      }
    }

    /** `recv` on the descriptor read from the slot, outside the mutex. */
    method ReceiveFrom(r: Recv)
      requires Valid() && listener.Receiving?
      modifies this`listener, this`pass
      ensures Valid() && Now() == Step(old(Now()), Receive(r))
    {
      hide Inv;
      StepInv(Now(), Receive(r));
      pass := pass.(polled := pass.polled + [listener.client]);
      match r
      case Data | NoData | Interrupted =>
        listener := Polling(listener.count, listener.i + 1);
      case Closed | Failed =>
        listener := Dropping(listener.count, listener.i, listener.client);
    }

    /** Disconnects by slot index, under the mutex. */
    method DropClient()
      requires Valid() && Enabled(Now(), Drop)
      modifies this`listener, this`pass, table`count, table`error, table`open, table.socks, table.addrs
      ensures Valid() && Now() == Step(old(Now()), Drop)
    {
      hide Inv, Slipped, Without;
      StepInv(Now(), Drop);
      ghost var clients := table.Clients();
      var ok := table.Disconnect(listener.i);
      if ok {
        pass := Slipped(pass, clients, listener.i);
      }
      listener := Polling(listener.count, listener.i + 1);
    }

    /** `accept` returned a descriptor, outside the mutex. */
    method AcceptConnection(c: Client)
      requires Valid() && Enabled(Now(), Accept(c))
      modifies this`accepter, table`open
      ensures Valid() && Now() == Step(old(Now()), Accept(c))
    {
      hide Inv;
      StepInv(Now(), Accept(c));
      accepter := Holding(c);
      table.open := table.open + {c.sock};
    }

    /** Enters the connection under the mutex, or closes it and stops when the table is full. */
    method StoreConnection()
      requires Valid() && accepter.Holding?
      modifies this`accepter, this`admitted, table`count, table`error, table`open, table.socks, table.addrs
      ensures Valid() && Now() == Step(old(Now()), Store)
    {
      HeldIsPositive(Now());
      hide Inv;
      StepInv(Now(), Store);
      var c := accepter.client;
      var ok := table.Admit(c.sock, c.addr);
      if ok {
        admitted := admitted + [c];
        accepter := Waiting;
      } else {
        accepter := Stopped;
      }
    }
  }

  lemma InvBoundsPass(s: State)
    requires Inv(s) && s.listener.Polling?
    ensures s.listener.count <= MAX_CLIENTS
  {
  }

  lemma HeldIsPositive(s: State)
    requires Inv(s) && s.accepter.Holding?
    ensures s.accepter.client.sock > 0
  {
  }
}
