/** The protocol engine of `server_ns::Server` (server/server.hpp) run by one
    worker: the client registry it updates, the send attempts it makes, the
    descriptors it closes and the descriptors it arms for readiness events.
    The socket calls are oracles: `send` answers by attempt number, `recv`
    and `accept` by a script per ready event.

    Each operation is specified by a function on a `World` value; the
    methods of `Server` update the fields in place and are proved to match
    those functions. The properties of the functions are proved in module
    Properties. */
module ChatServer {
  import opened Common
  import opened Registry
  import opened Protocol
  import opened Fanout

  /** A descriptor registered with the readiness multiplexer, and its mask. */
  datatype Arming = Arming(fd: int, events: bv32)

  /** What the worker changes or produces. */
  datatype World = World(clients: Clients, outbox: seq<Delivery>, closed: seq<int>, armed: seq<Arming>)

  /** The world after an operation, and the operation's return code (0 or -1). */
  datatype Run = Run(world: World, code: int)

  // ---------------------------------------------------------------------
  // Specification functions
  // ---------------------------------------------------------------------

  /** One `send` to `fd`: -1 when it fails for another reason than would-block. */
  function SendSpec(w: World, fd: int, n: Notice, fate: SendOracle): Run
  {
    var d := Delivery(fd, n, fate(|w.outbox|));
    Run(w.(outbox := w.outbox + [d]), if d.status == Fatal then -1 else 0)
  }

  /** A fan-out over the registry in `std::map` order. */
  function FanoutSpec(w: World, a: Audience, n: Notice, fate: SendOracle): Run
  {
    var b := SendEach(w.clients, Ascending(w.clients.Keys), a, n, fate, |w.outbox|);
    Run(w.(outbox := w.outbox + b.attempts), if b.ok then 0 else -1)
  }

  /** One listing row per key, in the order of `keys`. */
  function Rows(m: Clients, keys: seq<int>): (rows: seq<Row>)
    ensures |rows| == |keys|
    ensures forall j | 0 <= j < |keys| :: rows[j] == RowOf(ClientAt(m, keys[j]))
  {
    if keys == [] then [] else [RowOf(ClientAt(m, keys[0]))] + Rows(m, keys[1..])
  }

  /** One step of the fan-out loop at position `i` of `keys`. */
  lemma SendEachStep(m: Clients, keys: seq<int>, i: nat, a: Audience, n: Notice, fate: SendOracle, base: nat)
    requires i < |keys|
    ensures SendEach(m, keys[i..], a, n, fate, base)
         == if !Addressed(a, m, keys[i]) then SendEach(m, keys[i + 1..], a, n, fate, base)
            else if fate(base) == Fatal then Batch([Delivery(keys[i], n, fate(base))], false)
            else
              var rest := SendEach(m, keys[i + 1..], a, n, fate, base + 1);
              Batch([Delivery(keys[i], n, fate(base))] + rest.attempts, rest.ok)
  {
    assert keys[i..][1..] == keys[i + 1..];
  }

  /** The user listing of `show_userinfo_to_client`: the client count, then
      a row per client in `std::map` order. */
  function ListingOf(m: Clients): Notice
  {
    Listing(|m|, Rows(m, Ascending(m.Keys)))
  }

  /** Peer closed: close the descriptor, erase its record (reading its
      nickname first; `operator[]` yields "" for a missing key) and tell the
      others. */
  function DepartSpec(w: World, connfd: int, fate: SendOracle): Run
  {
    var nick := NickOf(w.clients, connfd);
    FanoutSpec(w.(closed := w.closed + [connfd], clients := w.clients - {connfd}), AllBut(connfd), Leave(nick), fate)
  }

  /** A command from a client that has its nickname. */
  function CommandSpec(w: World, connfd: int, p: string, fate: SendOracle): Run
  {
    match Classify(p)
    case ListUsers => SendSpec(w, connfd, ListingOf(w.clients), fate)
    case Directed(name, body) => FanoutSpec(w, Named(name), Direct(body), fate)
    case Say(text) => FanoutSpec(w, AllBut(connfd), Chat(NickOf(w.clients, connfd), text), fate)
  }

  /** A non-empty payload: the handshake when the nickname is not set yet
      (`clients[connfd]` creates a default record for an unknown key);
      otherwise the caution when the sender is alone, then the command. */
  function InterpretSpec(w: World, connfd: int, p: string, fate: SendOracle): Run
  {
    if connfd !in w.clients || !w.clients[connfd].nicknameSet then
      var c := ClientAt(w.clients, connfd).(nickname := p, nicknameSet := true);
      FanoutSpec(w.(clients := w.clients[connfd := c]), AllBut(connfd), Welcome(p), fate)
    else if |w.clients| == 1 then
      var caution := SendSpec(w, connfd, Caution, fate);
      if caution.code == -1 then caution else CommandSpec(caution.world, connfd, p, fate)
    else
      CommandSpec(w, connfd, p, fate)
  }

  /** `get_msg_and_forward_to_clients`: drain the socket, then act on how
      the read loop ended. */
  function IngestSpec(w: World, connfd: int, script: seq<RecvOutcome>, fate: SendOracle): Run
  {
    match ReadPhase(script, [])
    case Failed => Run(w, -1)
    case Closed => DepartSpec(w, connfd, fate)
    case Drained(p) => if p == [] then Run(w, 0) else InterpretSpec(w, connfd, p, fate)
  }

  /** One entry of the `epoll_wait` result: descriptor and event bits. */
  datatype ReadyEvent = ReadyEvent(fd: int, events: bv32)

  /** What `accept` reports: a new connection (with the address
      `getnameinfo` gave and the `ctime` join stamp), would-block, or
      another error. */
  datatype AcceptOutcome =
    | Accepted(connFd: int, host: string, port: string, joinedAt: string)
    | AcceptWouldBlock
    | AcceptFailed

  /** How the pass over the ready events ended: every event handled, the
      `break` on an accept that would block, or the process exit on any
      other accept error. */
  datatype DispatchEnd = AllHandled | AcceptDrained(at: nat) | AcceptError(at: nat)

  datatype Dispatched = Dispatched(world: World, end: DispatchEnd)

  /** An error or hang-up event, or one that is not readable. */
  predicate Unusable(events: bv32)
  {
    events & EPOLLERR != 0 || events & EPOLLHUP != 0 || events & EPOLLIN == 0
  }

  /** A new connection: stored (without overwriting) and armed
      edge-triggered. */
  function AcceptSpec(w: World, c: int, host: string, port: string, joinedAt: string): World
  {
    w.(clients := Inserted(w.clients, c, NewClient(c, host, port, joinedAt)),
       armed := w.armed + [Arming(c, EventMask(true))])
  }

  /** The `for` loop of `start_worker` over the ready events, from event `i`
      on. */
  function DispatchFrom(w: World, listenFd: int, evs: seq<ReadyEvent>, i: nat,
                        accepts: nat -> AcceptOutcome, recvs: nat -> seq<RecvOutcome>,
                        fate: SendOracle): Dispatched
    requires i <= |evs|
    decreases |evs| - i
  {
    if i == |evs| then Dispatched(w, AllHandled)
    else
      var ev := evs[i];
      if Unusable(ev.events) then
        DispatchFrom(w.(closed := w.closed + [ev.fd]), listenFd, evs, i + 1, accepts, recvs, fate)
      else if ev.fd == listenFd then
        match accepts(i)
        case AcceptWouldBlock => Dispatched(w, AcceptDrained(i))
        case AcceptFailed => Dispatched(w, AcceptError(i))
        case Accepted(c, host, port, t) =>
          DispatchFrom(AcceptSpec(w, c, host, port, t), listenFd, evs, i + 1, accepts, recvs, fate)
      else
        DispatchFrom(IngestSpec(w, ev.fd, recvs(i), fate).world, listenFd, evs, i + 1, accepts, recvs, fate)
  }

  // ---------------------------------------------------------------------
  // The server state, updated in place
  // ---------------------------------------------------------------------

  class Server {
    var clients: Clients
    /** Every send attempt so far, in order, with the oracle's answer. */
    var outbox: seq<Delivery>
    /** Every descriptor passed to `close`, in order. */
    var closed: seq<int>
    /** Every descriptor added to the readiness multiplexer, in order. */
    var armed: seq<Arming>
    const listenFd: int
    const fate: SendOracle

    function State(): World
      reads this
    {
      World(clients, outbox, closed, armed)
    }

    constructor (listenFd: int, fate: SendOracle)
      ensures State() == World(map[], [], [], [])
      ensures this.listenFd == listenFd && this.fate == fate
    {
      this.listenFd := listenFd;
      this.fate := fate;
      clients := map[];
      outbox := [];
      closed := [];
      armed := [];
    }

    /** `store_client_infomation`. */
    method StoreClient(connFd: int, host: string, port: string, joinedAt: string)
      modifies this
      ensures State() == old(State()).(clients := Inserted(old(clients), connFd, NewClient(connFd, host, port, joinedAt)))
    {
      var client := NewClient(connFd, host, port, joinedAt);
      if connFd !in clients {
        clients := clients[connFd := client];
      }
    }

    /** One `send`. */
    method Send(fd: int, n: Notice) returns (r: int)
      modifies this`outbox
      ensures Run(State(), r) == SendSpec(old(State()), fd, n, fate)
    {
      var status := fate(|outbox|);
      outbox := outbox + [Delivery(fd, n, status)];
      r := if status == Fatal then -1 else 0;
    }

    /** `broadcast`: every client but `sender`, ascending, stopping at the
      first failed send. */
    method Broadcast(sender: int, n: Notice) returns (r: int)
      modifies this`outbox
      ensures Run(State(), r) == FanoutSpec(old(State()), AllBut(sender), n, fate)
    {
      var keys := Ascending(clients.Keys);
      ghost var whole := SendEach(clients, keys, AllBut(sender), n, fate, |outbox|);
      ghost var pending := whole;
      var i := 0;
      while i < |keys|
        invariant 0 <= i <= |keys|
        invariant pending == SendEach(clients, keys[i..], AllBut(sender), n, fate, |outbox|)
        invariant old(outbox) + whole.attempts == outbox + pending.attempts
        invariant whole.ok == pending.ok
      {
        assert Addressed(AllBut(sender), clients, keys[i]) <==> keys[i] != sender;
        SendEachStep(clients, keys, i, AllBut(sender), n, fate, |outbox|);
        if keys[i] != sender {
          var d := Delivery(keys[i], n, fate(|outbox|));
          if d.status == Fatal {
            assert pending == Batch([d], false);
            outbox := outbox + [d];
            assert outbox == old(outbox) + whole.attempts && !whole.ok;
            return -1;
          }
          pending := SendEach(clients, keys[i + 1..], AllBut(sender), n, fate, |outbox| + 1);
          assert outbox + ([d] + pending.attempts) == (outbox + [d]) + pending.attempts;
          outbox := outbox + [d];
        }
        i := i + 1;
      }
      assert keys[i..] == [];
      assert outbox == old(outbox) + whole.attempts && whole.ok;
      return 0;
    }

    /** The directed loop: every client whose nickname is `name`, ascending,
      stopping at the first failed send. */
    method SendDirected(name: string, body: string) returns (r: int)
      modifies this`outbox
      ensures Run(State(), r) == FanoutSpec(old(State()), Named(name), Direct(body), fate)
    {
      var keys := Ascending(clients.Keys);
      ghost var whole := SendEach(clients, keys, Named(name), Direct(body), fate, |outbox|);
      ghost var pending := whole;
      var i := 0;
      while i < |keys|
        invariant 0 <= i <= |keys|
        invariant pending == SendEach(clients, keys[i..], Named(name), Direct(body), fate, |outbox|)
        invariant old(outbox) + whole.attempts == outbox + pending.attempts
        invariant whole.ok == pending.ok
      {
        assert keys[i] in keys;
        SendEachStep(clients, keys, i, Named(name), Direct(body), fate, |outbox|);
        if clients[keys[i]].nickname == name {
          var d := Delivery(keys[i], Direct(body), fate(|outbox|));
          if d.status == Fatal {
            assert pending == Batch([d], false);
            outbox := outbox + [d];
            assert outbox == old(outbox) + whole.attempts && !whole.ok;
            return -1;
          }
          pending := SendEach(clients, keys[i + 1..], Named(name), Direct(body), fate, |outbox| + 1);
          assert outbox + ([d] + pending.attempts) == (outbox + [d]) + pending.attempts;
          outbox := outbox + [d];
        }
        i := i + 1;
      }
      assert keys[i..] == [];
      assert outbox == old(outbox) + whole.attempts && whole.ok;
      return 0;
    }

    /** `show_userinfo_to_client`: the listing, built row by row, to
      `connfd` alone. */
    method ShowUsers(connfd: int) returns (r: int)
      modifies this`outbox
      ensures Run(State(), r) == SendSpec(old(State()), connfd, ListingOf(old(clients)), fate)
    {
      var registry := clients;
      var keys := Ascending(registry.Keys);
      var rows: seq<Row> := [];
      var i := 0;
      while i < |keys|
        invariant 0 <= i <= |keys|
        invariant |rows| == i
        invariant forall j | 0 <= j < i :: rows[j] == RowOf(ClientAt(registry, keys[j]))
      {
        assert keys[i] in keys;
        rows := rows + [RowOf(registry[keys[i]])];
        i := i + 1;
      }
      assert rows == Rows(registry, keys);
      r := Send(connfd, Listing(|clients|, rows));
    }

    /** The zero-byte-read path. */
    method Depart(connfd: int) returns (r: int)
      modifies this
      ensures Run(State(), r) == DepartSpec(old(State()), connfd, fate)
    {
      closed := closed + [connfd];
      var nick := NickOf(clients, connfd);
      clients := clients - {connfd};
      r := Broadcast(connfd, Leave(nick));
    }

    /** What happens to a non-empty payload. */
    method Interpret(connfd: int, p: string) returns (r: int)
      modifies this
      ensures Run(State(), r) == InterpretSpec(old(State()), connfd, p, fate)
    {
      if connfd !in clients || !clients[connfd].nicknameSet {
        var c := ClientAt(clients, connfd);
        clients := clients[connfd := c.(nickname := p, nicknameSet := true)];
        r := Broadcast(connfd, Welcome(p));
        return;
      }
      if |clients| == 1 {
        r := Send(connfd, Caution);
        if r == -1 {
          return;
        }
      }
      match Classify(p)
      case ListUsers =>
        r := ShowUsers(connfd);
      case Directed(name, body) =>
        r := SendDirected(name, body);
      case Say(text) =>
        r := Broadcast(connfd, Chat(clients[connfd].nickname, text));
    }

    /** `get_msg_and_forward_to_clients`. */
    method Ingest(connfd: int, script: seq<RecvOutcome>) returns (r: int)
      modifies this
      ensures Run(State(), r) == IngestSpec(old(State()), connfd, script, fate)
    {
      var payload := "";
      var k := 0;
      while k < |script|
        invariant 0 <= k <= |script|
        invariant ReadPhase(script[k..], payload) == ReadPhase(script, [])
        invariant State() == old(State())
      {
        assert script[k..][1..] == script[k + 1..];
        match script[k]
        case Eintr =>
          k := k + 1;
        case Eagain =>
          break;
        case OtherError =>
          return -1;
        case Zero =>
          r := Depart(connfd);
          return;
        case Data(b) =>
          if b == [] {
            r := Depart(connfd);
            return;
          }
          payload := payload + UpToNul(b);
          k := k + 1;
      }
      if payload == [] {
        return 0;
      }
      r := Interpret(connfd, payload);
    }

    /** The body of `start_worker`'s event loop over one `epoll_wait`
      result. */
    method DispatchReady(events: array<ReadyEvent>, accepts: nat -> AcceptOutcome, recvs: nat -> seq<RecvOutcome>)
      returns (end: DispatchEnd)
      modifies this
      ensures Dispatched(State(), end) == DispatchFrom(old(State()), listenFd, events[..], 0, accepts, recvs, fate)
    {
      var i := 0;
      while i < events.Length
        invariant 0 <= i <= events.Length
        invariant DispatchFrom(State(), listenFd, events[..], i, accepts, recvs, fate)
               == DispatchFrom(old(State()), listenFd, events[..], 0, accepts, recvs, fate)
      {
        var ev := events[i];
        if Unusable(ev.events) {
          closed := closed + [ev.fd];
        } else if ev.fd == listenFd {
          match accepts(i)
          case AcceptWouldBlock =>
            return AcceptDrained(i);
          case AcceptFailed =>
            return AcceptError(i);
          case Accepted(c, host, port, t) =>
            StoreClient(c, host, port, t);
            armed := armed + [Arming(c, EventMask(true))];
        } else {
          var _ := Ingest(ev.fd, recvs(i));
        }
        i := i + 1;
      }
      end := AllHandled;
    }
  }
}
