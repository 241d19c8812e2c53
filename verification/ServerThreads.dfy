/** The listener and accepter threads of a TCP server as a state machine. Every section under the mutex
    is one step, and so is every call to `recv` or `accept` between two sections, so a run is any
    interleaving of the two threads. Only the listener disconnects. */
module ServerThreads {
  import opened ClientTable

  /** What `recv` reported. */
  datatype Recv = Data | NoData | Interrupted | Closed | Failed

  predicate Fatal(r: Recv) {
    r == Closed || r == Failed
  }

  /** Where the listener is: between passes, at the head of its loop over slots, holding a slot it has
      read, or holding one whose `recv` failed. `count` is the snapshot, never refreshed in a pass. */
  datatype Listener =
    | Idle
    | Polling(count: nat, i: nat)
    | Receiving(count: nat, i: nat, client: Client)
    | Dropping(count: nat, i: nat, client: Client)

  datatype Accepter = Waiting | Holding(client: Client) | Stopped

  /** A record of the current pass: the clients at its start, those polled, those that slid into a slot
      already visited, and the number of disconnects. */
  datatype Pass = Pass(snap: seq<Client>, polled: seq<Client>, skipped: seq<Client>, drops: nat)

  datatype State = State(
    listening: int,
    clients: seq<Client>,
    open: set<int>,
    listener: Listener,
    accepter: Accepter,
    admitted: seq<Client>,
    pass: Pass)

  datatype Action =
    | Snapshot
    | EndPass
    | Take
    | Receive(result: Recv)
    | Drop
    | Accept(client: Client)
    | Store

  function Initial(listening: int): State {
    State(listening, [], {listening}, Idle, Waiting, [], Pass([], [], [], 0))
  }

  /** Which step each thread can take. An accepted descriptor is positive and not open already; it may
      well be one that was closed before. */
  predicate Enabled(s: State, a: Action) {
    match a
    case Snapshot => s.listener.Idle?
    case EndPass => s.listener.Polling? && s.listener.i >= s.listener.count
    case Take => s.listener.Polling? && 1 <= s.listener.i < s.listener.count
    case Receive(_) => s.listener.Receiving?
    case Drop => s.listener.Dropping? && s.listener.i >= 1
    case Accept(c) => s.accepter.Waiting? && c.sock > 0 && c.sock !in s.open
    case Store => s.accepter.Holding?
  }

  function Step(s: State, a: Action): State
    requires Enabled(s, a)
  {
    match a
    case Snapshot =>
      s.(listener := Polling(|s.clients| + 1, 1), pass := Pass(s.clients, [], [], 0))
    case EndPass => s.(listener := Idle)
    case Take =>
      var l := s.listener;
      var c := Slot(s.clients, l.i);
      if c.sock <= 0 then s.(listener := Polling(l.count, l.i + 1))
      else s.(listener := Receiving(l.count, l.i, c))
    case Receive(r) =>
      var l := s.listener;
      s.(listener := if Fatal(r) then Dropping(l.count, l.i, l.client) else Polling(l.count, l.i + 1),
         pass := s.pass.(polled := s.pass.polled + [l.client]))
    case Drop =>
      var l := s.listener;
      var s' := s.(listener := Polling(l.count, l.i + 1));
      if l.i > |s.clients| || s.clients[l.i - 1].sock <= 0 then s'
      else
        s'.(clients := Without(s.clients, l.i),
            open := s.open - {s.clients[l.i - 1].sock},
            pass := Slipped(s.pass, s.clients, l.i))
    case Accept(c) => s.(accepter := Holding(c), open := s.open + {c.sock})
    case Store =>
      var c := s.accepter.client;
      if |s.clients| + 1 < MAX_CLIENTS then
        s.(clients := s.clients + [c], admitted := s.admitted + [c], accepter := Waiting)
      else
        s.(open := s.open - {c.sock}, accepter := Stopped)
  }

  /** How many entries of the snapshot lie before slot `i` or have been removed. */
  function Passed(pass: Pass, i: nat): nat
    requires i >= 1
  {
    i - 1 + pass.drops
  }

  /** A disconnect at slot `i` moves the next client into it, behind the listener's back. */
  function Slipped(pass: Pass, clients: seq<Client>, i: nat): Pass
    requires 1 <= i <= |clients|
  {
    var slips := i < |clients| && Passed(pass, i + 1) < |pass.snap|;
    pass.(drops := pass.drops + 1, skipped := pass.skipped + if slips then [clients[i]] else [])
  }

  predicate IsRun(s: State, acts: seq<Action>)
    decreases |acts|
  {
    acts != [] ==> Enabled(s, acts[0]) && IsRun(Step(s, acts[0]), acts[1..])
  }

  function Exec(s: State, acts: seq<Action>): State
    requires IsRun(s, acts)
    decreases |acts|
  {
    if acts == [] then s else Exec(Step(s, acts[0]), acts[1..])
  }

  // ---- Invariants ----

  ghost predicate Distinct(clients: seq<Client>) {
    forall i, j :: 0 <= i < j < |clients| ==> clients[i].sock != clients[j].sock
  }

  /** Every client in the table has its own open socket. */
  ghost predicate TableOk(s: State) {
    && |s.clients| + 1 <= MAX_CLIENTS
    && |s.pass.snap| + 1 <= MAX_CLIENTS
    && (forall c :: c in s.clients ==> c.sock > 0 && c.sock in s.open && c.sock != s.listening)
    && Distinct(s.clients)
    && s.listening in s.open
    && IsSubsequence(s.clients, s.admitted)
    && (s.accepter.Holding? ==>
          var p := s.accepter.client;
          && p.sock > 0 && p.sock in s.open && p.sock != s.listening
          && forall c :: c in s.clients ==> c.sock != p.sock)
  }

  /** What a thread holds outside the mutex is still what the table says. */
  ghost predicate HeldOk(s: State) {
    var l := s.listener;
    l.Receiving? || l.Dropping? ==> 1 <= l.i <= |s.clients| && s.clients[l.i - 1] == l.client
  }

  /** `a` arises from `b` by leaving out elements. */
  ghost predicate IsSubsequence<T>(a: seq<T>, b: seq<T>)
    decreases |b|
  {
    || a == []
    || (b != [] &&
        (IsSubsequence(a, b[..|b| - 1]) ||
         (a[|a| - 1] == b[|b| - 1] && IsSubsequence(a[..|a| - 1], b[..|b| - 1]))))
  }

  /** `whole` is an interleaving of `a` and `b`, both in order. */
  ghost predicate IsMerge<T>(a: seq<T>, b: seq<T>, whole: seq<T>)
    decreases |whole|
  {
    if whole == [] then a == [] && b == []
    else
      var last, rest := whole[|whole| - 1], whole[..|whole| - 1];
      || (a != [] && a[|a| - 1] == last && IsMerge(a[..|a| - 1], b, rest))
      || (b != [] && b[|b| - 1] == last && IsMerge(a, b[..|b| - 1], rest))
  }

  /** The first `m` clients of the snapshot have been dealt with: polled or skipped, in order. */
  ghost predicate Settled(p: Pass, m: nat) {
    && |p.skipped| <= m <= |p.snap|
    && m <= |p.polled| + |p.skipped|
    && IsMerge(p.polled[..m - |p.skipped|], p.skipped, p.snap[..m])
  }

  /** The clients of the snapshot from `m` on are still in the table, in order, from slot `i` on. */
  ghost predicate Ahead(p: Pass, m: nat, clients: seq<Client>, i: nat) {
    m < |p.snap| ==>
      1 <= i <= |clients| - (|p.snap| - m) + 1 && clients[i - 1..i - 1 + (|p.snap| - m)] == p.snap[m..]
  }

  /** The skipped clients are in the table, in the first `kept` slots. */
  ghost predicate Behind(p: Pass, clients: seq<Client>, kept: nat) {
    && |p.skipped| <= p.drops
    && forall c :: c in p.skipped ==> exists j :: 0 <= j < kept && j < |clients| && clients[j] == c
  }

  /** The pass so far, when slot `i` is next and the slots up to `kept` will not be touched again. */
  ghost predicate PassAt(s: State, count: nat, i: nat, kept: nat)
    requires i >= 1
  {
    var p := s.pass;
    var passed := Passed(p, i);
    && i <= count == |p.snap| + 1
    && |p.polled| <= i - 1
    && (passed <= |p.snap| ==> |p.polled| + |p.skipped| == passed)
    && Settled(p, if passed < |p.snap| then passed else |p.snap|)
    && Ahead(p, passed, s.clients, i)
    && Behind(p, s.clients, kept)
  }

  ghost predicate PassOk(s: State) {
    match s.listener
    case Idle => true
    case Polling(count, i) => i >= 1 && PassAt(s, count, i, i - 1)
    case Receiving(count, i, _) => 1 <= i < count && PassAt(s, count, i, i - 1)
    case Dropping(count, i, _) => 1 <= i < count && PassAt(s, count, i + 1, i - 1)
  }

  ghost predicate Inv(s: State) {
    TableOk(s) && HeldOk(s) && PassOk(s)
  }

  // ---- Subsequences and merges ----

  lemma SubsequenceSnoc<T>(a: seq<T>, b: seq<T>, x: T)
    requires IsSubsequence(a, b)
    ensures IsSubsequence(a + [x], b + [x])
  {
    assert (a + [x])[..|a|] == a && (b + [x])[..|b|] == b;
  }

  lemma {:induction false} SubsequenceWithout(clients: seq<Client>, cid: nat, b: seq<Client>)
    requires 1 <= cid <= |clients| && IsSubsequence(clients, b)
    ensures IsSubsequence(Without(clients, cid), b)
    decreases |b|
  {
    var rest := b[..|b| - 1];
    if IsSubsequence(clients, rest) {
      SubsequenceWithout(clients, cid, rest);
    } else if cid == |clients| {
      assert Without(clients, cid) == clients[..|clients| - 1];
    } else {
      var front := clients[..|clients| - 1];
      SubsequenceWithout(front, cid, rest);
      WithoutFront(clients, cid);
    }
  }

  lemma WithoutFront(clients: seq<Client>, cid: nat)
    requires 1 <= cid < |clients|
    ensures var w := Without(clients, cid);
            && w != [] && w[|w| - 1] == clients[|clients| - 1]
            && w[..|w| - 1] == Without(clients[..|clients| - 1], cid)
  {
  }

  lemma MergeLeft<T>(a: seq<T>, b: seq<T>, whole: seq<T>, x: T)
    requires IsMerge(a, b, whole)
    ensures IsMerge(a + [x], b, whole + [x])
  {
    assert (a + [x])[..|a|] == a && (whole + [x])[..|whole|] == whole;
  }

  lemma MergeRight<T>(a: seq<T>, b: seq<T>, whole: seq<T>, x: T)
    requires IsMerge(a, b, whole)
    ensures IsMerge(a, b + [x], whole + [x])
  {
    assert (b + [x])[..|b|] == b && (whole + [x])[..|whole|] == whole;
  }

  /** A merge has the elements of both parts and no others, each as often. */
  lemma {:induction false} MergeElements<T>(a: seq<T>, b: seq<T>, whole: seq<T>)
    requires IsMerge(a, b, whole)
    ensures multiset(whole) == multiset(a) + multiset(b)
    decreases |whole|
  {
    if whole != [] {
      var last, rest := whole[|whole| - 1], whole[..|whole| - 1];
      assert whole == rest + [last];
      if a != [] && a[|a| - 1] == last && IsMerge(a[..|a| - 1], b, rest) {
        assert a == a[..|a| - 1] + [last];
        MergeElements(a[..|a| - 1], b, rest);
      } else {
        assert b == b[..|b| - 1] + [last];
        MergeElements(a, b[..|b| - 1], rest);
      }
    }
  }

  lemma {:induction false} MergeNothing<T>(a: seq<T>, whole: seq<T>)
    requires IsMerge(a, [], whole)
    ensures a == whole
    decreases |whole|
  {
    if whole != [] {
      MergeNothing(a[..|a| - 1], whole[..|whole| - 1]);
      assert a == a[..|a| - 1] + [a[|a| - 1]];
      assert whole == whole[..|whole| - 1] + [whole[|whole| - 1]];
    }
  }

  // ---- Preservation ----

  lemma InitialInv(listening: int)
    ensures Inv(Initial(listening))
  {
  }

  lemma DropTableOk(s: State)
    requires Enabled(s, Drop) && TableOk(s)
    ensures TableOk(Step(s, Drop))
  {
    hide IsSubsequence, Slipped;
    var i := s.listener.i;
    if i <= |s.clients| {
      SubsequenceWithout(s.clients, i, s.admitted);
      WithoutDistinct(s.clients, i);
      SlippedKeepsSnap(s.pass, s.clients, i);
    }
  }

  lemma SlippedKeepsSnap(p: Pass, clients: seq<Client>, i: nat)
    requires 1 <= i <= |clients|
    ensures Slipped(p, clients, i).snap == p.snap
  {
  }

  lemma WithoutDistinct(clients: seq<Client>, i: nat)
    requires 1 <= i <= |clients| && Distinct(clients)
    ensures Distinct(Without(clients, i))
    ensures forall c :: c in Without(clients, i) ==> c in clients && c.sock != clients[i - 1].sock
  {
  }

  lemma StoreTableOk(s: State)
    requires Enabled(s, Store) && TableOk(s)
    ensures TableOk(Step(s, Store))
  {
    hide IsSubsequence;
    SubsequenceSnoc(s.clients, s.admitted, s.accepter.client);
  }

  lemma StepTableOk(s: State, a: Action)
    requires Enabled(s, a) && TableOk(s)
    ensures TableOk(Step(s, a))
  {
    hide IsSubsequence, Slipped, Without, Distinct;
    match a
    case Drop => DropTableOk(s);
    case Store => StoreTableOk(s);
    case _ =>
  }

  lemma StepHeldOk(s: State, a: Action)
    requires Enabled(s, a) && HeldOk(s)
    ensures HeldOk(Step(s, a))
  {
  }

  lemma SnapshotPassOk(s: State)
    requires Enabled(s, Snapshot)
    ensures PassOk(Step(s, Snapshot))
  {
    assert s.clients[0..|s.clients|] == s.clients[0..];
  }

  lemma TakePassOk(s: State)
    requires Enabled(s, Take) && TableOk(s) && PassOk(s)
    ensures PassOk(Step(s, Take))
  {
    hide Settled, IsSubsequence, IsMerge;
    var i := s.listener.i;
    if i <= |s.clients| {
      assert s.clients[i - 1] in s.clients;
    }
  }

  /** The client waiting in slot `i` is settled by polling it. */
  lemma PollSettles(p: Pass, clients: seq<Client>, i: nat, m: nat)
    requires Settled(p, m) && m < |p.snap| && |p.polled| + |p.skipped| == m && Ahead(p, m, clients, i)
    ensures var p' := p.(polled := p.polled + [clients[i - 1]]);
            Settled(p', m + 1) && Ahead(p', m + 1, clients, i + 1)
  {
    var c := clients[i - 1];
    var p' := p.(polled := p.polled + [c]);
    var rest := |p.snap| - m;
    assert clients[i - 1..i - 1 + rest][0] == c && p.snap[m..][0] == p.snap[m];
    assert clients[i..i + (rest - 1)] == clients[i - 1..i - 1 + rest][1..];
    assert p.snap[m + 1..] == p.snap[m..][1..];
    assert p.polled[..m - |p.skipped|] == p.polled;
    MergeLeft(p.polled, p.skipped, p.snap[..m], c);
    assert p'.polled[..m + 1 - |p.skipped|] == p'.polled;
    assert p.snap[..m + 1] == p.snap[..m] + [p.snap[m]];
  }

  /** Polling more than the snapshot does not unsettle it. */
  lemma PollMore(p: Pass, c: Client, m: nat)
    requires Settled(p, m)
    ensures Settled(p.(polled := p.polled + [c]), m)
  {
    assert (p.polled + [c])[..m - |p.skipped|] == p.polled[..m - |p.skipped|];
  }

  lemma ReceivePassOk(s: State, r: Recv)
    requires Enabled(s, Receive(r)) && HeldOk(s) && PassOk(s)
    ensures PassOk(Step(s, Receive(r)))
  {
    hide Settled, Ahead, IsMerge;
    var p, i, c := s.pass, s.listener.i, s.listener.client;
    var passed := Passed(p, i);
    var p' := p.(polled := p.polled + [c]);
    if passed < |p.snap| {
      PollSettles(p, s.clients, i, passed);
    } else {
      PollMore(p, c, |p.snap|);
      NoneAhead(p', passed + 1, s.clients, i + 1);
    }
    BehindMore(p, p', s.clients, s.clients, i - 1, i);
  }

  lemma NoneAhead(p: Pass, m: nat, clients: seq<Client>, i: nat)
    requires m >= |p.snap|
    ensures Ahead(p, m, clients, i)
  {
  }

  lemma BehindMore(p: Pass, p': Pass, clients: seq<Client>, clients': seq<Client>, kept: nat, kept': nat)
    requires Behind(p, clients, kept) && p'.skipped == p.skipped && p'.drops >= p.drops && kept <= kept'
    requires forall j :: 0 <= j < kept && j < |clients| ==> j < |clients'| && clients'[j] == clients[j]
    ensures Behind(p', clients', kept')
  {
    forall c | c in p'.skipped
      ensures exists j :: 0 <= j < kept' && j < |clients'| && clients'[j] == c
    {
      var j :| 0 <= j < kept && j < |clients| && clients[j] == c;
      assert clients'[j] == c;
    }
  }

  /** The client that slides into the vacated slot is settled by being skipped. */
  lemma SlipSettles(p: Pass, clients: seq<Client>, i: nat, m: nat)
    requires Settled(p, m) && m < |p.snap| && |p.polled| + |p.skipped| == m
    requires 1 <= i && Ahead(p, m, clients, i + 1)
    ensures var p' := p.(skipped := p.skipped + [clients[i]], drops := p.drops + 1);
            Settled(p', m + 1) && Ahead(p', m + 1, Without(clients, i), i + 1)
  {
    var c, w := clients[i], Without(clients, i);
    var p' := p.(skipped := p.skipped + [c], drops := p.drops + 1);
    var rest := |p.snap| - m;
    assert clients[i..i + rest][0] == c && p.snap[m..][0] == p.snap[m];
    assert w[i..i + (rest - 1)] == clients[i..i + rest][1..];
    assert p.snap[m + 1..] == p.snap[m..][1..];
    assert p.polled[..m - |p.skipped|] == p.polled;
    MergeRight(p.polled, p.skipped, p.snap[..m], c);
    assert p.polled[..m + 1 - |p'.skipped|] == p.polled;
    assert p.snap[..m + 1] == p.snap[..m] + [p.snap[m]];
  }

  lemma SlipBehind(p: Pass, clients: seq<Client>, i: nat)
    requires 1 <= i <= |clients| && Behind(p, clients, i - 1)
    ensures Behind(Slipped(p, clients, i), Without(clients, i), i)
  {
    var p', w := Slipped(p, clients, i), Without(clients, i);
    forall c | c in p'.skipped
      ensures exists j :: 0 <= j < i && j < |w| && w[j] == c
    {
      if c in p.skipped {
        var j :| 0 <= j < i - 1 && j < |clients| && clients[j] == c;
        assert w[j] == c;
      } else {
        assert w[i - 1] == c;
      }
    }
  }

  lemma DropPassOk(s: State)
    requires Enabled(s, Drop) && TableOk(s) && HeldOk(s) && PassOk(s)
    ensures PassOk(Step(s, Drop))
  {
    hide Settled, Ahead, Behind, IsMerge, IsSubsequence, Without;
    var p, i := s.pass, s.listener.i;
    var passed := Passed(p, i + 1);
    assert s.clients[i - 1] in s.clients;
    SlipBehind(p, s.clients, i);
    if passed < |p.snap| {
      AheadFits(p, passed, s.clients, i + 1);
      SlipSettles(p, s.clients, i, passed);
    } else {
      DropsKeepSettled(p, |p.snap|);
      NoneAhead(Slipped(p, s.clients, i), passed + 1, Without(s.clients, i), i + 1);
    }
    var s' := Step(s, Drop);
    assert s'.pass == Slipped(p, s.clients, i);
    assert PassAt(s', s.listener.count, i + 1, i);
  }

  lemma AheadFits(p: Pass, m: nat, clients: seq<Client>, i: nat)
    requires Ahead(p, m, clients, i) && m < |p.snap|
    ensures i <= |clients|
  {
  }

  lemma DropsKeepSettled(p: Pass, m: nat)
    requires Settled(p, m)
    ensures Settled(p.(drops := p.drops + 1, skipped := p.skipped + []), m)
  {
    assert p.skipped + [] == p.skipped;
  }

  lemma StorePassOk(s: State)
    requires Enabled(s, Store) && PassOk(s)
    ensures PassOk(Step(s, Store))
  {
    hide Settled, IsMerge, IsSubsequence;
    if |s.clients| + 1 < MAX_CLIENTS && !s.listener.Idle? {
      var c, l := s.accepter.client, s.listener;
      var i := if l.Dropping? then l.i + 1 else l.i;
      BehindMore(s.pass, s.pass, s.clients, s.clients + [c], l.i - 1, l.i - 1);
      AheadAppended(s.pass, Passed(s.pass, i), s.clients, i, c);
    }
  }

  lemma AheadAppended(p: Pass, m: nat, clients: seq<Client>, i: nat, c: Client)
    requires Ahead(p, m, clients, i)
    ensures Ahead(p, m, clients + [c], i)
  {
    if m < |p.snap| {
      var n := i - 1 + (|p.snap| - m);
      assert (clients + [c])[i - 1..n] == clients[i - 1..n];
    }
  }

  lemma StepPassOk(s: State, a: Action)
    requires Enabled(s, a) && Inv(s)
    ensures PassOk(Step(s, a))
  {
    hide TableOk, HeldOk, PassAt, IsMerge, IsSubsequence;
    match a
    case Snapshot => SnapshotPassOk(s);
    case EndPass =>
    case Take => TakePassOk(s);
    case Receive(r) => ReceivePassOk(s, r);
    case Drop => DropPassOk(s);
    case Accept(c) => AcceptPassOk(s, c);
    case Store => StorePassOk(s);
  }

  lemma AcceptPassOk(s: State, c: Client)
    requires Enabled(s, Accept(c)) && PassOk(s)
    ensures PassOk(Step(s, Accept(c)))
  {
  }

  lemma StepInv(s: State, a: Action)
    requires Enabled(s, a) && Inv(s)
    ensures Inv(Step(s, a))
  {
    hide TableOk, HeldOk, PassOk, Step, Enabled;
    StepTableOk(s, a);
    StepHeldOk(s, a);
    StepPassOk(s, a);
  }

  /** Every interleaving, from a freshly set up server, keeps the invariants. */
  lemma {:induction false} RunInv(s: State, acts: seq<Action>)
    requires Inv(s) && IsRun(s, acts)
    ensures Inv(Exec(s, acts))
    decreases |acts|
  {
    hide Inv, Step, Enabled;
    if acts != [] {
      StepInv(s, acts[0]);
      RunInv(Step(s, acts[0]), acts[1..]);
    }
  }

  // ---- What the invariants give ----

  lemma ReachableInv(listening: int, acts: seq<Action>)
    requires IsRun(Initial(listening), acts)
    ensures Inv(Exec(Initial(listening), acts))
  {
    hide Inv, IsRun, Exec;
    InitialInv(listening);
    RunInv(Initial(listening), acts);
  }

  /** In every reachable state the table is within its bounds, each client has an open socket of its
      own, and the clients stand in the order in which they were accepted. */
  lemma TableInvariant(listening: int, acts: seq<Action>)
    requires IsRun(Initial(listening), acts)
    ensures var s := Exec(Initial(listening), acts);
            && |s.clients| + 1 <= MAX_CLIENTS
            && (forall c :: c in s.clients ==> c.sock > 0 && c.sock in s.open && c.sock != listening)
            && Distinct(s.clients)
            && IsSubsequence(s.clients, s.admitted)
  {
    hide IsRun, Exec, IsSubsequence;
    ReachableInv(listening, acts);
    RunKeepsListening(Initial(listening), acts);
  }

  lemma {:induction false} RunKeepsListening(s: State, acts: seq<Action>)
    requires IsRun(s, acts)
    ensures Exec(s, acts).listening == s.listening
    decreases |acts|
  {
    if acts != [] {
      RunKeepsListening(Step(s, acts[0]), acts[1..]);
    }
  }

  /** `recv` is only ever called on a socket that is open and still belongs to the slot it was read
      from, however stale the snapshot count is. */
  lemma ReceiveOnLiveSocket(listening: int, acts: seq<Action>)
    requires IsRun(Initial(listening), acts)
    ensures var s := Exec(Initial(listening), acts);
            s.listener.Receiving? ==>
              && s.listener.client.sock in s.open
              && s.listener.i >= 1 && Slot(s.clients, s.listener.i) == s.listener.client
  {
    hide IsRun, Exec, IsSubsequence, PassOk;
    ReachableInv(listening, acts);
    var s := Exec(Initial(listening), acts);
    if s.listener.Receiving? {
      assert s.clients[s.listener.i - 1] in s.clients;
    }
  }

  ghost predicate AccepterActions(acts: seq<Action>) {
    forall a :: a in acts ==> a.Accept? || a.Store?
  }

  /** The accepter never touches what the listener holds. */
  lemma {:induction false} AccepterKeepsListener(s: State, acts: seq<Action>)
    requires IsRun(s, acts) && AccepterActions(acts)
    ensures Exec(s, acts).listener == s.listener
    decreases |acts|
  {
    if acts != [] {
      assert acts[0] in acts;
      AccepterKeepsListener(Step(s, acts[0]), acts[1..]);
    }
  }

  /** The client removed after a `recv` that reported a closed or failed connection is the one it was
      made on, and only that one, whatever the accepter does in between. */
  lemma RemovedIsTheFailed(s: State, r: Recv, between: seq<Action>)
    requires Inv(s) && Enabled(s, Receive(r)) && (r == Closed || r == Failed)
    requires IsRun(Step(s, Receive(r)), between) && AccepterActions(between)
    ensures var c, t := s.listener.client, Exec(Step(s, Receive(r)), between);
            && Enabled(t, Drop)
            && c in t.clients && c !in Step(t, Drop).clients
            && (forall d :: d in t.clients && d != c ==> d in Step(t, Drop).clients)
            && Step(t, Drop).open == t.open - {c.sock}
  {
    var s1 := Step(s, Receive(r));
    var t, c, i := Exec(s1, between), s.listener.client, s.listener.i;
    StepInv(s, Receive(r));
    RunInv(s1, between);
    AccepterKeepsListener(s1, between);
    RemovesOnly(t.clients, i);
    assert t.clients[i - 1] == c;
    assert c in t.clients;
  }

  // ---- Who leaves the table ----

  lemma {:induction false} RunSnoc(s: State, acts: seq<Action>, a: Action)
    ensures IsRun(s, acts + [a]) <==> IsRun(s, acts) && Enabled(Exec(s, acts), a)
    ensures IsRun(s, acts + [a]) ==> Exec(s, acts + [a]) == Step(Exec(s, acts), a)
    decreases |acts|
  {
    hide Step, Enabled;
    if acts == [] {
      assert acts + [a] == [a] && [a][1..] == [];
    } else {
      assert (acts + [a])[0] == acts[0] && (acts + [a])[1..] == acts[1..] + [a];
      if Enabled(s, acts[0]) {
        RunSnoc(Step(s, acts[0]), acts[1..], a);
      }
    }
  }

  /** The run ends with a `recv` that reported a closed or failed connection of client `c`, and with
      nothing after it but the accepter's steps. */
  ghost predicate HungUp(s: State, acts: seq<Action>, c: Client)
    requires IsRun(s, acts)
  {
    exists before: seq<Action>, r: Recv, between: seq<Action> ::
      HungUpAt(s, acts, c, before, r, between)
  }

  ghost predicate HungUpAt(s: State, acts: seq<Action>, c: Client, before: seq<Action>, r: Recv, between: seq<Action>) {
    && acts == before + [Receive(r)] + between && (r == Closed || r == Failed) && AccepterActions(between)
    && IsRun(s, before) && Exec(s, before).listener.Receiving? && Exec(s, before).listener.client == c
  }

  /** The listener is about to remove a client only when `recv` has just reported that it hung up. */
  lemma {:induction false} DropsAfterHangup(s: State, acts: seq<Action>)
    requires IsRun(s, acts) && !s.listener.Dropping? && Exec(s, acts).listener.Dropping?
    ensures HungUp(s, acts, Exec(s, acts).listener.client)
    decreases |acts|
  {
    hide Step, Enabled;
    if acts != [] {
      var front, a := acts[..|acts| - 1], acts[|acts| - 1];
      assert acts == front + [a];
      RunSnoc(s, front, a);
      var t := Exec(s, front);
      IntoDropping(t, a);
      if a.Receive? {
        assert acts == front + [Receive(a.result)] + [];
        assert HungUpAt(s, acts, t.listener.client, front, a.result, []);
      } else {
        DropsAfterHangup(s, front);
        var before, r, between :| HungUpAt(s, front, t.listener.client, before, r, between);
        assert before + [Receive(r)] + between + [a] == before + [Receive(r)] + (between + [a]);
        assert HungUpAt(s, acts, t.listener.client, before, r, between + [a]);
      }
    }
  }

  lemma IntoDropping(t: State, a: Action)
    requires Enabled(t, a) && Step(t, a).listener.Dropping?
    ensures a.Receive? ==>
              && t.listener.Receiving? && (a.result == Closed || a.result == Failed)
              && Step(t, a).listener.client == t.listener.client
    ensures !a.Receive? ==> (a.Accept? || a.Store?) && Step(t, a).listener == t.listener
  {
  }

  /** Over every run: a client leaves the table only in the removal that follows a `recv` on that very
      client, which reported it closed or failed. */
  lemma LeavesOnlyAfterHangup(listening: int, acts: seq<Action>, a: Action, c: Client)
    requires IsRun(Initial(listening), acts + [a]) && IsRun(Initial(listening), acts)
    requires c in Exec(Initial(listening), acts).clients && c !in Exec(Initial(listening), acts + [a]).clients
    ensures a == Drop && HungUp(Initial(listening), acts, c)
  {
    hide IsRun, Exec, IsSubsequence, PassOk, HungUp;
    var s := Exec(Initial(listening), acts);
    RunSnoc(Initial(listening), acts, a);
    ReachableInv(listening, acts);
    OnlyDropRemoves(s, a, c);
    DropsAfterHangup(Initial(listening), acts);
  }

  lemma OnlyDropRemoves(s: State, a: Action, c: Client)
    requires Inv(s) && Enabled(s, a) && c in s.clients && c !in Step(s, a).clients
    ensures a == Drop && s.listener.Dropping? && c == s.listener.client
  {
    hide PassOk, IsSubsequence, Without, Slipped;
    if a == Drop {
      RemovesOnly(s.clients, s.listener.i);
    }
  }

  /** No `recv` of the run reports a connection closed or failed. */
  ghost predicate NoHangup(acts: seq<Action>) {
    forall a :: a in acts && a.Receive? ==> a.result == Data || a.result == NoData || a.result == Interrupted
  }

  /** In a run where `recv` only ever has data, has none, or is interrupted, everyone admitted stays. */
  lemma {:induction false} HealthyStay(s: State, acts: seq<Action>)
    requires IsRun(s, acts) && NoHangup(acts) && !s.listener.Dropping? && s.clients == s.admitted
    ensures Exec(s, acts).clients == Exec(s, acts).admitted && !Exec(s, acts).listener.Dropping?
    decreases |acts|
  {
    if acts != [] {
      assert acts[0] in acts;
      assert forall a :: a in acts[1..] ==> a in acts;
      HealthyStep(s, acts[0]);
      HealthyStay(Step(s, acts[0]), acts[1..]);
    }
  }

  lemma HealthyStep(s: State, a: Action)
    requires Enabled(s, a) && !s.listener.Dropping? && s.clients == s.admitted
    requires a.Receive? ==> a.result == Data || a.result == NoData || a.result == Interrupted
    ensures !Step(s, a).listener.Dropping? && Step(s, a).clients == Step(s, a).admitted
  {
  }

  lemma NobodyLeavesHealthy(listening: int, acts: seq<Action>)
    requires IsRun(Initial(listening), acts) && NoHangup(acts)
    ensures Exec(Initial(listening), acts).clients == Exec(Initial(listening), acts).admitted
  {
    hide IsRun, Exec, NoHangup;
    HealthyStay(Initial(listening), acts);
  }

  /** What becomes of an accepted connection: with fewer than 255 clients it joins them and the accepter
      goes on; otherwise its socket is closed and the accepter stops for good. */
  lemma StoreExactly(s: State)
    requires Enabled(s, Store)
    ensures var c, t := s.accepter.client, Step(s, Store);
            && (|s.clients| < 255 ==> t.clients == s.clients + [c] && t.open == s.open && t.accepter == Waiting)
            && (|s.clients| >= 255 ==>
                  t.clients == s.clients && t.open == s.open - {c.sock} && t.accepter == Stopped)
  {
  }

  lemma {:induction false} StoppedForGood(s: State, acts: seq<Action>)
    requires IsRun(s, acts) && s.accepter.Stopped?
    ensures Exec(s, acts).accepter.Stopped? && Exec(s, acts).admitted == s.admitted
    decreases |acts|
  {
    hide Slipped, Without;
    if acts != [] {
      StoppedForGood(Step(s, acts[0]), acts[1..]);
    }
  }

  lemma RemovesOnly(clients: seq<Client>, i: nat)
    requires 1 <= i <= |clients| && Distinct(clients)
    ensures clients[i - 1] !in Without(clients, i)
    ensures forall d :: d in clients && d != clients[i - 1] ==> d in Without(clients, i)
  {
    var c, w := clients[i - 1], Without(clients, i);
    forall d | d in clients && d != c
      ensures d in w
    {
      var j :| 0 <= j < |clients| && clients[j] == d;
      assert w[if j < i - 1 then j else j - 1] == d;
    }
  }

  /** Whenever a pass ends: the snapshot is an interleaving of polled and skipped clients, in order;
      at most as many were skipped as were disconnected; and every skipped one is still connected. */
  lemma PassCoverage(listening: int, acts: seq<Action>)
    requires IsRun(Initial(listening), acts) && Enabled(Exec(Initial(listening), acts), EndPass)
    ensures var s := Exec(Initial(listening), acts);
            var p := s.pass;
            && |p.skipped| <= |p.snap| <= |p.polled| + |p.skipped|
            && IsMerge(p.polled[..|p.snap| - |p.skipped|], p.skipped, p.snap)
            && |p.skipped| <= p.drops
            && (forall c :: c in p.skipped ==> c in s.clients)
  {
    hide IsRun, Exec, IsMerge, TableOk, HeldOk;
    ReachableInv(listening, acts);
    var s := Exec(Initial(listening), acts);
    assert s.pass.snap[..|s.pass.snap|] == s.pass.snap;
  }

  /** So a snapshot client that was not polled is still connected, ... */
  lemma UnpolledStayConnected(listening: int, acts: seq<Action>, c: Client)
    requires IsRun(Initial(listening), acts) && Enabled(Exec(Initial(listening), acts), EndPass)
    requires c in Exec(Initial(listening), acts).pass.snap
    ensures var s := Exec(Initial(listening), acts); c in s.pass.polled || c in s.clients
  {
    hide IsRun, Exec, IsMerge, Enabled;
    PassCoverage(listening, acts);
    var p := Exec(Initial(listening), acts).pass;
    var polled := p.polled[..|p.snap| - |p.skipped|];
    MergeElements(polled, p.skipped, p.snap);
    assert c in multiset(p.snap);
    assert c in polled || c in p.skipped;
  }

  /** ... and a pass without a disconnect polls exactly the snapshot, each client once, in order. */
  lemma UndisturbedPassPollsAll(listening: int, acts: seq<Action>)
    requires IsRun(Initial(listening), acts) && Enabled(Exec(Initial(listening), acts), EndPass)
    requires Exec(Initial(listening), acts).pass.drops == 0
    ensures var p := Exec(Initial(listening), acts).pass; p.polled == p.snap
  {
    hide IsRun, Exec, IsMerge, TableOk, HeldOk;
    ReachableInv(listening, acts);
    PassCoverage(listening, acts);
    var p := Exec(Initial(listening), acts).pass;
    assert p.skipped == [];
    assert p.polled[..|p.snap|] == p.polled;
    MergeNothing(p.polled, p.snap);
  }

  /** The protection stops there: were a third thread to disconnect client `j` between a failed `recv`
      and the removal, the removal would take the failed client, and no other, exactly when `j` lies
      behind it, or is the failed client itself with none behind it. */
  lemma OutsideDisconnectExactly(s: State, j: nat)
    requires Inv(s) && s.listener.Dropping? && 1 <= j <= |s.clients|
    ensures var t := s.(clients := Without(s.clients, j), open := s.open - {s.clients[j - 1].sock});
            var i, c, u := s.listener.i, s.listener.client, Step(t, Drop);
            (c !in u.clients && forall d :: d in t.clients && d != c ==> d in u.clients)
            <==> j > i || j == i == |s.clients|
  {
    hide PassOk, IsSubsequence, Without;
    var n, i, c := |s.clients|, s.listener.i, s.listener.client;
    var after := Without(s.clients, j);
    WithoutAt(s.clients, j);
    WithoutDistinct(s.clients, j);
    RemovesOnly(s.clients, j);
    DropOn(s, j);
    if i < n {
      RemovesOnly(after, i);
      assert after[i - 1] == if i < j then c else s.clients[i];
      assert after[i - 1] in after;
    }
    if j < i {
      assert after[i - 2] == c && c in after;
    }
  }

  lemma WithoutAt(clients: seq<Client>, j: nat)
    requires 1 <= j <= |clients|
    ensures var w := Without(clients, j);
            |w| == |clients| - 1 && forall m :: 0 <= m < |w| ==> w[m] == clients[if m < j - 1 then m else m + 1]
  {
  }

  /** What the removal does to the table an outside disconnect has left. */
  lemma DropOn(s: State, j: nat)
    requires Inv(s) && s.listener.Dropping? && 1 <= j <= |s.clients|
    ensures var t := s.(clients := Without(s.clients, j), open := s.open - {s.clients[j - 1].sock});
            var i := s.listener.i;
            && i <= |s.clients| && |t.clients| == |s.clients| - 1
            && Step(t, Drop).clients == if i == |s.clients| then t.clients else Without(t.clients, i)
  {
    hide PassOk, IsSubsequence, Without;
    WithoutAt(s.clients, j);
    var after, i := Without(s.clients, j), s.listener.i;
    if i <= |after| {
      assert after[i - 1] == s.clients[if i < j then i - 1 else i];
    }
  }
}
