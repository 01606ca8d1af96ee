/** What the protocol engine of server/server.hpp guarantees, stated over
    the specification functions of module ChatServer (which the methods of
    `ChatServer.Server` are proved to follow): who is sent what and in
    which order, what the registry looks like afterwards, which code is
    returned, and which ready events are looked at. */
module Properties {
  import opened Common
  import opened Registry
  import opened Protocol
  import opened Fanout
  import opened ChatServer

  // ---------------------------------------------------------------------
  // Fan-out
  // ---------------------------------------------------------------------

  /** The attempts `sent` of a fan-out to audience `a` over registry `m`:
      only addressed handles, each with notice `n` and the network's answer
      for its attempt number; ascending, so each handle at most once; no
      failure before the last attempt; success exactly when no attempt
      failed, and then every addressed handle was attempted; otherwise the
      last attempt is the first failure, every addressed handle below it was
      attempted, and none above it. */
  ghost predicate FannedOut(m: Clients, sent: seq<Delivery>, ok: bool, a: Audience, n: Notice, fate: SendOracle, base: nat)
  {
    && (forall i | 0 <= i < |sent| ::
          sent[i].fd in m && Addressed(a, m, sent[i].fd) && sent[i].notice == n && sent[i].status == fate(base + i))
    && (forall i, j | 0 <= i < j < |sent| :: sent[i].fd < sent[j].fd)
    && (forall i | 0 <= i < |sent| - 1 :: sent[i].status != Fatal)
    && (ok <==> forall i | 0 <= i < |sent| :: sent[i].status != Fatal)
    && (ok ==> forall k | k in m && Addressed(a, m, k) :: exists i | 0 <= i < |sent| :: sent[i].fd == k)
    && (!ok ==> |sent| > 0 && sent[|sent| - 1].status == Fatal)
    && (!ok ==> forall k | k in m && Addressed(a, m, k) && k < sent[|sent| - 1].fd ::
          exists i | 0 <= i < |sent| :: sent[i].fd == k)
  }

  /** Attempts made in order over the recipients `t` — the addressed
      registered handles, ascending — are the ones `FannedOut` describes. */
  lemma DescribedFannedOut(m: Clients, t: seq<int>, b: Batch, a: Audience, n: Notice, fate: SendOracle, base: nat)
    requires Describes(b, t, n, fate, base)
    requires forall i | 0 <= i < |t| :: t[i] in m && Addressed(a, m, t[i])
    requires forall k | k in m && Addressed(a, m, k) :: k in t
    requires Increasing(t)
    ensures FannedOut(m, b.attempts, b.ok, a, n, fate, base)
  {
    var sent := b.attempts;
    forall i | 0 <= i < |sent|
      ensures sent[i].fd in m && Addressed(a, m, sent[i].fd) && sent[i].notice == n && sent[i].status == fate(base + i)
    {
      assert sent[i] == Delivery(t[i], n, fate(base + i));
    }
    forall i, j | 0 <= i < j < |sent| ensures sent[i].fd < sent[j].fd {
      assert sent[i].fd == t[i] && sent[j].fd == t[j];
    }
    DescribedCoverage(m, t, b, a, n, fate, base);
  }

  /** Which addressed handles such attempts reach: all of them on success,
      and on failure all of those below the failing one. */
  lemma DescribedCoverage(m: Clients, t: seq<int>, b: Batch, a: Audience, n: Notice, fate: SendOracle, base: nat)
    requires Describes(b, t, n, fate, base)
    requires forall k | k in m && Addressed(a, m, k) :: k in t
    requires Increasing(t)
    ensures b.ok ==> forall k | k in m && Addressed(a, m, k) :: exists i | 0 <= i < |b.attempts| :: b.attempts[i].fd == k
    ensures !b.ok ==> forall k | k in m && Addressed(a, m, k) && k < b.attempts[|b.attempts| - 1].fd ::
      exists i | 0 <= i < |b.attempts| :: b.attempts[i].fd == k
  {
    var sent := b.attempts;
    if b.ok {
      forall k | k in m && Addressed(a, m, k) ensures exists i | 0 <= i < |sent| :: sent[i].fd == k {
        assert k in t;
        var i :| 0 <= i < |t| && t[i] == k;
        assert sent[i].fd == t[i];
      }
    } else {
      var last := |sent| - 1;
      assert sent[last].fd == t[last];
      forall k | k in m && Addressed(a, m, k) && k < sent[last].fd
        ensures exists i | 0 <= i < |sent| :: sent[i].fd == k
      {
        assert k in t;
        var i :| 0 <= i < |t| && t[i] == k;
        assert i < last;
        assert sent[i].fd == t[i];
      }
    }
  }

  /** A fan-out loop over the registry's keys, visited once each in
      ascending order, makes the attempts `FannedOut` describes. */
  lemma BatchFannedOut(m: Clients, keys: seq<int>, a: Audience, n: Notice, fate: SendOracle, base: nat)
    requires Increasing(keys)
    requires forall i | 0 <= i < |keys| :: keys[i] in m
    requires forall k | k in m :: k in keys
    ensures var b := SendEach(m, keys, a, n, fate, base);
      FannedOut(m, b.attempts, b.ok, a, n, fate, base)
  {
    var t := Recipients(m, keys, a);
    SendEachSpec(m, keys, a, n, fate, base);
    forall i | 0 <= i < |t| ensures t[i] in m && Addressed(a, m, t[i]) {
      assert t[i] in t;
      var j :| 0 <= j < |keys| && keys[j] == t[i];
    }
    DescribedFannedOut(m, t, SendEach(m, keys, a, n, fate, base), a, n, fate, base);
  }

  /** A fan-out appends its attempts to the send record, changes nothing
      else, returns 0 or -1, and its attempts are `FannedOut`. */
  lemma FanoutAttempts(w: World, a: Audience, n: Notice, fate: SendOracle)
    ensures var r := FanoutSpec(w, a, n, fate);
      && r.world == w.(outbox := r.world.outbox)
      && |w.outbox| <= |r.world.outbox|
      && r.world.outbox[..|w.outbox|] == w.outbox
      && (r.code == 0 || r.code == -1)
      && FannedOut(w.clients, r.world.outbox[|w.outbox|..], r.code == 0, a, n, fate, |w.outbox|)
  {
    var keys := Ascending(w.clients.Keys);
    var b := SendEach(w.clients, keys, a, n, fate, |w.outbox|);
    AscendingComplete(w.clients.Keys);
    BatchFannedOut(w.clients, keys, a, n, fate, |w.outbox|);
    var r := FanoutSpec(w, a, n, fate);
    assert r.world.outbox == w.outbox + b.attempts;
    assert r.world.outbox[..|w.outbox|] == w.outbox;
    assert r.world.outbox[|w.outbox|..] == b.attempts;
  }

  /** `broadcast` never sends to `sender_fd`; it attempts the other handles
      in ascending order, each at most once; it returns 0 exactly when no
      send failed, and then every other registered handle was attempted; it
      returns -1 right after the first failed send, having attempted every
      other handle below the failing one and no later handle. The registry
      is untouched. */
  lemma BroadcastAttempts(w: World, sender: int, n: Notice, fate: SendOracle)
    ensures FanoutSpec(w, AllBut(sender), n, fate).world.clients == w.clients
    ensures |w.outbox| <= |FanoutSpec(w, AllBut(sender), n, fate).world.outbox|
    ensures var r := FanoutSpec(w, AllBut(sender), n, fate);
      var sent := r.world.outbox[|w.outbox|..];
      && r.world.outbox == w.outbox + sent
      && (forall i | 0 <= i < |sent| :: sent[i].fd in w.clients && sent[i].fd != sender && sent[i].notice == n)
      && (forall i, j | 0 <= i < j < |sent| :: sent[i].fd < sent[j].fd)
      && (forall i | 0 <= i < |sent| - 1 :: sent[i].status != Fatal)
      && (r.code == 0 <==> forall i | 0 <= i < |sent| :: sent[i].status != Fatal)
      && (r.code == 0 ==> forall k | k in w.clients && k != sender :: exists i | 0 <= i < |sent| :: sent[i].fd == k)
      && (r.code != 0 ==> r.code == -1 && |sent| > 0 && sent[|sent| - 1].status == Fatal)
      && (r.code != 0 ==> forall k | k in w.clients && k != sender && k < sent[|sent| - 1].fd ::
            exists i | 0 <= i < |sent| :: sent[i].fd == k)
  {
    FanoutAttempts(w, AllBut(sender), n, fate);
    AllButRun(w, FanoutSpec(w, AllBut(sender), n, fate), sender, n, fate);
  }

  /** What `FanoutAttempts` says of a fan-out run `r`, with the audience
      "everyone but `sender`" written out. */
  lemma AllButRun(w: World, r: Run, sender: int, n: Notice, fate: SendOracle)
    requires r.world == w.(outbox := r.world.outbox)
    requires |w.outbox| <= |r.world.outbox|
    requires r.world.outbox[..|w.outbox|] == w.outbox
    requires r.code == 0 || r.code == -1
    requires FannedOut(w.clients, r.world.outbox[|w.outbox|..], r.code == 0, AllBut(sender), n, fate, |w.outbox|)
    ensures var sent := r.world.outbox[|w.outbox|..];
      && r.world.outbox == w.outbox + sent
      && (forall i | 0 <= i < |sent| :: sent[i].fd in w.clients && sent[i].fd != sender && sent[i].notice == n)
      && (r.code == 0 ==> forall k | k in w.clients && k != sender :: exists i | 0 <= i < |sent| :: sent[i].fd == k)
      && (r.code != 0 ==> forall k | k in w.clients && k != sender && k < sent[|sent| - 1].fd ::
            exists i | 0 <= i < |sent| :: sent[i].fd == k)
  {
    var sent := r.world.outbox[|w.outbox|..];
    assert r.world.outbox == w.outbox + sent;
    forall k | k in w.clients && k != sender ensures Addressed(AllBut(sender), w.clients, k) {
    }
  }

  // ---------------------------------------------------------------------
  // Closing a connection
  // ---------------------------------------------------------------------

  /** On a zero-byte read the handle is closed and is absent from the
      registry afterwards, the registry shrinks by one exactly when it was
      present, and the leave notice (with the nickname read before the
      erase) goes to remaining handles only — to all of them when the
      result is 0. */
  lemma LeaveRemovesHandle(w: World, connfd: int, fate: SendOracle)
    ensures var r := DepartSpec(w, connfd, fate);
      && connfd !in r.world.clients
      && r.world.clients == w.clients - {connfd}
      && |r.world.clients| == (if connfd in w.clients then |w.clients| - 1 else |w.clients|)
      && r.world.closed == w.closed + [connfd]
      && r.world.armed == w.armed
    ensures |w.outbox| <= |DepartSpec(w, connfd, fate).world.outbox|
    ensures var r := DepartSpec(w, connfd, fate);
      var sent := r.world.outbox[|w.outbox|..];
      && r.world.outbox == w.outbox + sent
      && (forall i | 0 <= i < |sent| :: sent[i].fd in r.world.clients && sent[i].notice == Leave(NickOf(w.clients, connfd)))
      && (r.code == 0 ==> forall k | k in r.world.clients :: exists i | 0 <= i < |sent| :: sent[i].fd == k)
  {
    LeaveRegistry(w, connfd, fate);
    LeaveNotice(w, connfd, fate);
  }

  /** The registry, close and arm records after a close. */
  lemma LeaveRegistry(w: World, connfd: int, fate: SendOracle)
    ensures var r := DepartSpec(w, connfd, fate);
      && connfd !in r.world.clients
      && r.world.clients == w.clients - {connfd}
      && |r.world.clients| == (if connfd in w.clients then |w.clients| - 1 else |w.clients|)
      && r.world.closed == w.closed + [connfd]
      && r.world.armed == w.armed
  {
    var w' := w.(closed := w.closed + [connfd], clients := w.clients - {connfd});
    FanoutAttempts(w', AllBut(connfd), Leave(NickOf(w.clients, connfd)), fate);
    assert w'.clients.Keys == w.clients.Keys - {connfd};
    if connfd in w.clients {
      assert |w.clients.Keys - {connfd}| == |w.clients.Keys| - 1;
    } else {
      assert w.clients.Keys - {connfd} == w.clients.Keys;
    }
  }

  /** The leave notice goes to the remaining handles only, to all of them
      on 0. */
  lemma LeaveNotice(w: World, connfd: int, fate: SendOracle)
    ensures |w.outbox| <= |DepartSpec(w, connfd, fate).world.outbox|
    ensures var r := DepartSpec(w, connfd, fate);
      var sent := r.world.outbox[|w.outbox|..];
      && r.world.outbox == w.outbox + sent
      && (forall i | 0 <= i < |sent| :: sent[i].fd in r.world.clients && sent[i].notice == Leave(NickOf(w.clients, connfd)))
      && (r.code == 0 ==> forall k | k in r.world.clients :: exists i | 0 <= i < |sent| :: sent[i].fd == k)
  {
    var w' := w.(closed := w.closed + [connfd], clients := w.clients - {connfd});
    BroadcastAttempts(w', connfd, Leave(NickOf(w.clients, connfd)), fate);
  }

  // ---------------------------------------------------------------------
  // Draining a socket
  // ---------------------------------------------------------------------

  /** How `get_msg_and_forward_to_clients` ends, once the reads that
      continue the loop (`steps`) are followed by the first one that does
      not (`t`): another error returns -1 with nothing changed; a zero-byte
      read takes the close path; would-block with nothing gathered returns
      0 with nothing changed; otherwise the gathered chunks are interpreted
      as one payload. What `recv` would report after `t` is never read. */
  lemma IngestOutcome(w: World, connfd: int, steps: seq<RecvOutcome>, t: RecvOutcome, rest: seq<RecvOutcome>, fate: SendOracle)
    requires forall k | 0 <= k < |steps| :: Continues(steps[k])
    requires !Continues(t)
    ensures var r := IngestSpec(w, connfd, steps + [t] + rest, fate);
      && (t.OtherError? ==> r == Run(w, -1))
      && (t.Zero? || t.Data? ==> r == DepartSpec(w, connfd, fate))
      && (t.Eagain? && Gathered(steps) == [] ==> r == Run(w, 0))
      && (t.Eagain? && Gathered(steps) != [] ==> r == InterpretSpec(w, connfd, Gathered(steps), fate))
  {
    ReadPhaseEnds(steps, t, rest, []);
    assert [] + Gathered(steps) == Gathered(steps);
  }

  /** When the script runs out while the loop still continues, the socket
      counts as drained: the gathered chunks are interpreted, or nothing
      happens when none was gathered. */
  lemma IngestExhausted(w: World, connfd: int, steps: seq<RecvOutcome>, fate: SendOracle)
    requires forall k | 0 <= k < |steps| :: Continues(steps[k])
    ensures var r := IngestSpec(w, connfd, steps, fate);
      && (Gathered(steps) == [] ==> r == Run(w, 0))
      && (Gathered(steps) != [] ==> r == InterpretSpec(w, connfd, Gathered(steps), fate))
  {
    ReadPhaseExhausted(steps, []);
    assert [] + Gathered(steps) == Gathered(steps);
  }

  // ---------------------------------------------------------------------
  // The handshake
  // ---------------------------------------------------------------------

  /** The first payload of a handle without a nickname becomes its whole
      nickname and sets the flag (a missing handle is created by
      `operator[]` as a default record: no address, no join time, handle
      0), leaves every other record alone, and is announced as a welcome to
      every other registered handle and to no one else; nothing else is
      sent, and nothing is closed or armed. */
  lemma HandshakeSetsNickname(w: World, connfd: int, p: string, fate: SendOracle)
    requires connfd !in w.clients || !w.clients[connfd].nicknameSet
    ensures var r := InterpretSpec(w, connfd, p, fate);
      && r.world.clients.Keys == w.clients.Keys + {connfd}
      && r.world.clients[connfd] == ClientAt(w.clients, connfd).(nickname := p, nicknameSet := true)
      && (connfd !in w.clients ==> r.world.clients[connfd] == ClientInfo("", "", p, "", 0, true))
      && (forall k | k in w.clients && k != connfd :: r.world.clients[k] == w.clients[k])
    ensures InterpretSpec(w, connfd, p, fate).world.closed == w.closed
    ensures InterpretSpec(w, connfd, p, fate).world.armed == w.armed
    ensures |w.outbox| <= |InterpretSpec(w, connfd, p, fate).world.outbox|
    ensures var r := InterpretSpec(w, connfd, p, fate);
      var sent := r.world.outbox[|w.outbox|..];
      && r.world.outbox == w.outbox + sent
      && (forall i | 0 <= i < |sent| ::
            sent[i].fd in r.world.clients && sent[i].fd != connfd && sent[i].notice == Welcome(p))
      && (r.code == 0 ==> forall k | k in w.clients && k != connfd :: exists i | 0 <= i < |sent| :: sent[i].fd == k)
  {
    var c := ClientAt(w.clients, connfd).(nickname := p, nicknameSet := true);
    var w' := w.(clients := w.clients[connfd := c]);
    FanoutAttempts(w', AllBut(connfd), Welcome(p), fate);
    BroadcastAttempts(w', connfd, Welcome(p), fate);
  }

  /** Once a handle has its nickname, draining its socket never changes
      the registry, except that closing removes the handle: the nickname is
      set once and for all. */
  lemma NicknameFixedAfterHandshake(w: World, connfd: int, script: seq<RecvOutcome>, fate: SendOracle)
    requires connfd in w.clients && w.clients[connfd].nicknameSet
    ensures var r := IngestSpec(w, connfd, script, fate);
      r.world.clients == w.clients || r.world.clients == w.clients - {connfd}
    ensures var r := IngestSpec(w, connfd, script, fate);
      connfd in r.world.clients ==> r.world.clients[connfd].nickname == w.clients[connfd].nickname
  {
    match ReadPhase(script, [])
    case Failed =>
    case Closed =>
    case Drained(p) =>
      if p != [] {
        var w1 := if |w.clients| == 1 then SendSpec(w, connfd, Caution, fate).world else w;
        assert w1.clients == w.clients;
        match Classify(p)
        case ListUsers =>
        case Directed(name, body) =>
          FanoutAttempts(w1, Named(name), Direct(body), fate);
        case Say(text) =>
          FanoutAttempts(w1, AllBut(connfd), Chat(NickOf(w1.clients, connfd), text), fate);
      }
  }

  // ---------------------------------------------------------------------
  // Precedence after the handshake
  // ---------------------------------------------------------------------

  /** A handle alone in the registry is sent the caution first; a failed
      caution ends the call with -1, and otherwise the payload is still
      carried out as a command (the caution does not short-circuit). */
  lemma CautionFirst(w: World, connfd: int, p: string, fate: SendOracle)
    requires connfd in w.clients && w.clients[connfd].nicknameSet && |w.clients| == 1
    ensures var r := InterpretSpec(w, connfd, p, fate);
      var caution := Delivery(connfd, Caution, fate(|w.outbox|));
      var w' := w.(outbox := w.outbox + [caution]);
      && |w.outbox| < |r.world.outbox|
      && r.world.outbox[..|w.outbox| + 1] == w'.outbox
      && (caution.status == Fatal ==> r == Run(w', -1))
      && (caution.status != Fatal ==> r == CommandSpec(w', connfd, p, fate))
  {
    var caution := Delivery(connfd, Caution, fate(|w.outbox|));
    var w' := w.(outbox := w.outbox + [caution]);
    var r := InterpretSpec(w, connfd, p, fate);
    if caution.status != Fatal {
      match Classify(p)
      case ListUsers =>
        assert r.world.outbox == w'.outbox + [Delivery(connfd, ListingOf(w.clients), fate(|w'.outbox|))];
      case Directed(name, body) =>
        FanoutAttempts(w', Named(name), Direct(body), fate);
      case Say(text) =>
        FanoutAttempts(w', AllBut(connfd), Chat(NickOf(w'.clients, connfd), text), fate);
    }
  }

  /** A payload whose first twelve characters match "$ show users" in any
      case is answered with exactly one send — the listing, to the sender
      — and nothing else changes. */
  lemma ShowUsersAnswersOnlySender(w: World, connfd: int, p: string, fate: SendOracle)
    requires connfd in w.clients && w.clients[connfd].nicknameSet && |w.clients| != 1
    requires IsShowUsers(p)
    ensures var r := InterpretSpec(w, connfd, p, fate);
      var d := Delivery(connfd, ListingOf(w.clients), fate(|w.outbox|));
      && r.world == w.(outbox := w.outbox + [d])
      && r.code == (if d.status == Fatal then -1 else 0)
  {
  }

  /** The listing's header counts the registered handles, and it holds one
      row per handle: every handle's row appears, every row belongs to a
      handle, and the rows follow ascending handle order. */
  lemma ListingComplete(m: Clients)
    ensures ListingOf(m).count == |m| == |ListingOf(m).rows|
    ensures var keys := Ascending(m.Keys);
      && Increasing(keys)
      && forall i | 0 <= i < |ListingOf(m).rows| :: keys[i] in m && ListingOf(m).rows[i] == RowOf(m[keys[i]])
    ensures forall k | k in m :: RowOf(m[k]) in ListingOf(m).rows
    ensures forall i | 0 <= i < |ListingOf(m).rows| ::
      exists k | k in m :: ListingOf(m).rows[i] == RowOf(m[k])
  {
    var keys := Ascending(m.Keys);
    var rows := ListingOf(m).rows;
    AscendingComplete(m.Keys);
    forall k | k in m ensures RowOf(m[k]) in rows {
      var i :| 0 <= i < |keys| && keys[i] == k;
      assert rows[i] == RowOf(ClientAt(m, keys[i]));
    }
    forall i | 0 <= i < |rows| ensures exists k | k in m :: rows[i] == RowOf(m[k]) {
      assert keys[i] in m;
      assert rows[i] == RowOf(m[keys[i]]);
    }
  }

  /** A directed payload reaches only handles whose nickname is the target
      name, each at most once and in ascending order, carrying the message
      body, stopping at the first failed send; the registry is untouched,
      and nothing is closed or armed. */
  lemma DirectedOnlyToNamed(w: World, connfd: int, p: string, name: string, body: string, fate: SendOracle)
    requires connfd in w.clients && w.clients[connfd].nicknameSet && |w.clients| != 1
    requires Classify(p) == Directed(name, body)
    ensures InterpretSpec(w, connfd, p, fate).world.clients == w.clients
    ensures InterpretSpec(w, connfd, p, fate).world.closed == w.closed
    ensures InterpretSpec(w, connfd, p, fate).world.armed == w.armed
    ensures |w.outbox| <= |InterpretSpec(w, connfd, p, fate).world.outbox|
    ensures var r := InterpretSpec(w, connfd, p, fate);
      var sent := r.world.outbox[|w.outbox|..];
      && r.world.outbox == w.outbox + sent
      && (forall i | 0 <= i < |sent| ::
            sent[i].fd in w.clients && w.clients[sent[i].fd].nickname == name && sent[i].notice == Direct(body))
      && (forall i, j | 0 <= i < j < |sent| :: sent[i].fd < sent[j].fd)
      && (forall i | 0 <= i < |sent| - 1 :: sent[i].status != Fatal)
      && (r.code == 0 ==> forall k | k in w.clients && w.clients[k].nickname == name ::
            exists i | 0 <= i < |sent| :: sent[i].fd == k)
  {
    FanoutAttempts(w, Named(name), Direct(body), fate);
    var r := InterpretSpec(w, connfd, p, fate);
    assert r == FanoutSpec(w, Named(name), Direct(body), fate);
    var sent := r.world.outbox[|w.outbox|..];
    assert r.world.outbox == w.outbox + sent;
    if r.code == 0 {
      forall k | k in w.clients && w.clients[k].nickname == name ensures exists i | 0 <= i < |sent| :: sent[i].fd == k {
        assert Addressed(Named(name), w.clients, k);
      }
    }
  }

  /** With no handle of that nickname, a directed payload sends nothing
      and returns 0. */
  lemma DirectedToNoOne(w: World, connfd: int, p: string, name: string, body: string, fate: SendOracle)
    requires connfd in w.clients && w.clients[connfd].nicknameSet && |w.clients| != 1
    requires Classify(p) == Directed(name, body)
    requires forall k | k in w.clients :: w.clients[k].nickname != name
    ensures InterpretSpec(w, connfd, p, fate) == Run(w, 0)
  {
    var keys := Ascending(w.clients.Keys);
    NobodyAddressed(w.clients, keys, Named(name));
    SendEachSpec(w.clients, keys, Named(name), Direct(body), fate, |w.outbox|);
    assert w.outbox + [] == w.outbox;
  }

  /** A fan-out over keys none of which is addressed has no recipients. */
  lemma {:induction false} NobodyAddressed(m: Clients, keys: seq<int>, a: Audience)
    requires forall i | 0 <= i < |keys| :: !Addressed(a, m, keys[i])
    ensures Recipients(m, keys, a) == []
    decreases |keys|
  {
    if keys != [] {
      assert !Addressed(a, m, keys[0]);
      NobodyAddressed(m, keys[1..], a);
    }
  }

  /** Any other payload is broadcast as "[nickname] say >> payload" to every
      registered handle but the sender and to no one else; the registry is
      untouched, and nothing is closed or armed. */
  lemma SayBroadcastsToOthers(w: World, connfd: int, p: string, fate: SendOracle)
    requires connfd in w.clients && w.clients[connfd].nicknameSet && |w.clients| != 1
    requires !IsShowUsers(p) && !(|p| > 0 && p[0] == '>')
    ensures InterpretSpec(w, connfd, p, fate).world.clients == w.clients
    ensures InterpretSpec(w, connfd, p, fate).world.closed == w.closed
    ensures InterpretSpec(w, connfd, p, fate).world.armed == w.armed
    ensures |w.outbox| <= |InterpretSpec(w, connfd, p, fate).world.outbox|
    ensures var r := InterpretSpec(w, connfd, p, fate);
      var sent := r.world.outbox[|w.outbox|..];
      && r.world.outbox == w.outbox + sent
      && (forall i | 0 <= i < |sent| ::
            sent[i].fd in w.clients && sent[i].fd != connfd && sent[i].notice == Chat(w.clients[connfd].nickname, p))
      && (r.code == 0 ==> forall k | k in w.clients && k != connfd :: exists i | 0 <= i < |sent| :: sent[i].fd == k)
  {
    FanoutAttempts(w, AllBut(connfd), Chat(w.clients[connfd].nickname, p), fate);
    BroadcastAttempts(w, connfd, Chat(w.clients[connfd].nickname, p), fate);
  }

  // ---------------------------------------------------------------------
  // Ready-event dispatch
  // ---------------------------------------------------------------------

  /** The descriptors of a run of events, in order. */
  function Fds(evs: seq<ReadyEvent>): (fds: seq<int>)
    ensures |fds| == |evs|
  {
    if evs == [] then [] else [evs[0].fd] + Fds(evs[1..])
  }

  /** A run of error, hang-up and unreadable events, from `i` up to `j`, is
      closed in order and skipped: the registry, the send record and the
      armed set are untouched, and the pass goes on at event `j` as if only
      those descriptors had been closed. */
  lemma {:induction false} UnusableRunClosed(w: World, listenFd: int, evs: seq<ReadyEvent>, i: nat, j: nat,
                                             accepts: nat -> AcceptOutcome, recvs: nat -> seq<RecvOutcome>, fate: SendOracle)
    requires i <= j <= |evs|
    requires forall k | i <= k < j :: Unusable(evs[k].events)
    ensures DispatchFrom(w, listenFd, evs, i, accepts, recvs, fate)
         == DispatchFrom(w.(closed := w.closed + Fds(evs[i..j])), listenFd, evs, j, accepts, recvs, fate)
    decreases j - i
  {
    if i == j {
      assert Fds(evs[i..j]) == [];
      assert w.(closed := w.closed + []) == w;
    } else {
      var w' := w.(closed := w.closed + [evs[i].fd]);
      UnusableRunClosed(w', listenFd, evs, i + 1, j, accepts, recvs, fate);
      assert evs[i..j][1..] == evs[i + 1..j];
      assert w.closed + [evs[i].fd] + Fds(evs[i + 1..j]) == w.closed + Fds(evs[i..j]);
    }
  }

  /** When every event from `i` on is unusable, they are all closed and the
      pass ends with every event handled. */
  lemma UnusableEventsClosed(w: World, listenFd: int, evs: seq<ReadyEvent>, i: nat,
                             accepts: nat -> AcceptOutcome, recvs: nat -> seq<RecvOutcome>, fate: SendOracle)
    requires i <= |evs|
    requires forall k | i <= k < |evs| :: Unusable(evs[k].events)
    ensures DispatchFrom(w, listenFd, evs, i, accepts, recvs, fate)
         == Dispatched(w.(closed := w.closed + Fds(evs[i..])), AllHandled)
  {
    UnusableRunClosed(w, listenFd, evs, i, |evs|, accepts, recvs, fate);
    assert evs[i..|evs|] == evs[i..];
  }

  /** A hang-up closes a registered descriptor but keeps its record; when
      `accept` hands the same number out again, the non-overwriting insert
      keeps that stale record, nickname and handshake flag included, so the
      new connection is taken to have finished the handshake. */
  lemma ReusedHandleKeepsRecord(w: World, listenFd: int, ev: ReadyEvent, host: string, port: string, joinedAt: string,
                                accepts: nat -> AcceptOutcome, recvs: nat -> seq<RecvOutcome>, fate: SendOracle)
    requires ev.fd in w.clients && Unusable(ev.events)
    ensures var w1 := DispatchFrom(w, listenFd, [ev], 0, accepts, recvs, fate).world;
      && w1.closed == w.closed + [ev.fd]
      && w1.clients == w.clients
      && AcceptSpec(w1, ev.fd, host, port, joinedAt).clients[ev.fd] == w.clients[ev.fd]
  {
    UnusableEventsClosed(w, listenFd, [ev], 0, accepts, recvs, fate);
    assert Fds([ev][0..]) == [ev.fd];
  }

  /** An `accept` that would block, or fails, ends the pass over the ready
      events at the listening descriptor's event, which was usable. */
  lemma {:induction false} DispatchStopsAt(w: World, listenFd: int, evs: seq<ReadyEvent>, j: nat, at: nat,
                                           accepts: nat -> AcceptOutcome, recvs: nat -> seq<RecvOutcome>, fate: SendOracle)
    requires j <= |evs|
    requires DispatchFrom(w, listenFd, evs, j, accepts, recvs, fate).end in {AcceptDrained(at), AcceptError(at)}
    ensures j <= at < |evs| && evs[at].fd == listenFd && !Unusable(evs[at].events) && !accepts(at).Accepted?
    decreases |evs| - j
  {
    var ev := evs[j];
    if Unusable(ev.events) {
      DispatchStopsAt(w.(closed := w.closed + [ev.fd]), listenFd, evs, j + 1, at, accepts, recvs, fate);
    } else if ev.fd != listenFd {
      DispatchStopsAt(IngestSpec(w, ev.fd, recvs(j), fate).world, listenFd, evs, j + 1, at, accepts, recvs, fate);
    } else if accepts(j).Accepted? {
      var c := accepts(j);
      DispatchStopsAt(AcceptSpec(w, c.connFd, c.host, c.port, c.joinedAt), listenFd, evs, j + 1, at, accepts, recvs, fate);
    }
  }

  /** Event `k` is a usable event of the listening descriptor whose `accept`
      gives no descriptor: the `break` or the `errExit` of `start_worker`. */
  ghost predicate StopsPass(listenFd: int, evs: seq<ReadyEvent>, k: nat, accepts: nat -> AcceptOutcome)
    requires k < |evs|
  {
    evs[k].fd == listenFd && !Unusable(evs[k].events) && !accepts(k).Accepted?
  }

  /** The world after handling event `j`, when it does not stop the pass. */
  ghost function Handled(w: World, listenFd: int, evs: seq<ReadyEvent>, j: nat,
                         accepts: nat -> AcceptOutcome, recvs: nat -> seq<RecvOutcome>, fate: SendOracle): World
    requires j < |evs|
  {
    var ev := evs[j];
    if Unusable(ev.events) then w.(closed := w.closed + [ev.fd])
    else if ev.fd != listenFd then IngestSpec(w, ev.fd, recvs(j), fate).world
    else match accepts(j)
      case Accepted(c, host, port, t) => AcceptSpec(w, c, host, port, t)
      case _ => w
  }

  /** An event that does not stop the pass hands it on to the next one. */
  lemma DispatchStep(w: World, listenFd: int, evs: seq<ReadyEvent>, j: nat,
                     accepts: nat -> AcceptOutcome, recvs: nat -> seq<RecvOutcome>, fate: SendOracle)
    requires j < |evs| && !StopsPass(listenFd, evs, j, accepts)
    ensures DispatchFrom(w, listenFd, evs, j, accepts, recvs, fate)
         == DispatchFrom(Handled(w, listenFd, evs, j, accepts, recvs, fate), listenFd, evs, j + 1, accepts, recvs, fate)
  {
  }

  /** An event that stops the pass ends it there. */
  lemma DispatchStopsHere(w: World, listenFd: int, evs: seq<ReadyEvent>, at: nat,
                          accepts: nat -> AcceptOutcome, recvs: nat -> seq<RecvOutcome>, fate: SendOracle)
    requires at < |evs| && StopsPass(listenFd, evs, at, accepts)
    ensures DispatchFrom(w, listenFd, evs, at, accepts, recvs, fate).end
         == if accepts(at).AcceptWouldBlock? then AcceptDrained(at) else AcceptError(at)
  {
  }

  /** The first event from `j` on where `accept` gives no descriptor ends
      the pass there: a would-block as `AcceptDrained`, any other failure as
      `AcceptError`. */
  lemma {:induction false} DispatchBreaksAt(w: World, listenFd: int, evs: seq<ReadyEvent>, j: nat, at: nat,
                                            accepts: nat -> AcceptOutcome, recvs: nat -> seq<RecvOutcome>, fate: SendOracle)
    requires j <= at < |evs|
    requires StopsPass(listenFd, evs, at, accepts)
    requires forall k | j <= k < at :: !StopsPass(listenFd, evs, k, accepts)
    ensures DispatchFrom(w, listenFd, evs, j, accepts, recvs, fate).end
         == if accepts(at).AcceptWouldBlock? then AcceptDrained(at) else AcceptError(at)
    decreases at - j
  {
    if j < at {
      DispatchStep(w, listenFd, evs, j, accepts, recvs, fate);
      DispatchBreaksAt(Handled(w, listenFd, evs, j, accepts, recvs, fate), listenFd, evs, j + 1, at, accepts, recvs, fate);
    } else {
      DispatchStopsHere(w, listenFd, evs, at, accepts, recvs, fate);
    }
  }

  /** With no such event from `j` on, the pass handles every event. */
  lemma {:induction false} DispatchRunsToEnd(w: World, listenFd: int, evs: seq<ReadyEvent>, j: nat,
                                             accepts: nat -> AcceptOutcome, recvs: nat -> seq<RecvOutcome>, fate: SendOracle)
    requires j <= |evs|
    requires forall k | j <= k < |evs| :: !StopsPass(listenFd, evs, k, accepts)
    ensures DispatchFrom(w, listenFd, evs, j, accepts, recvs, fate).end == AllHandled
    decreases |evs| - j
  {
    if j < |evs| {
      DispatchStep(w, listenFd, evs, j, accepts, recvs, fate);
      DispatchRunsToEnd(Handled(w, listenFd, evs, j, accepts, recvs, fate), listenFd, evs, j + 1, accepts, recvs, fate);
    }
  }

  /** Whatever ready events follow the one where `accept` stopped the pass
      are never looked at. */
  lemma {:induction false} DispatchIgnoresRest(w: World, listenFd: int, evs: seq<ReadyEvent>, j: nat, at: nat,
                                               accepts: nat -> AcceptOutcome, recvs: nat -> seq<RecvOutcome>, fate: SendOracle)
    requires j <= |evs|
    requires DispatchFrom(w, listenFd, evs, j, accepts, recvs, fate).end in {AcceptDrained(at), AcceptError(at)}
    ensures j <= at < |evs|
    ensures DispatchFrom(w, listenFd, evs[..at + 1], j, accepts, recvs, fate)
         == DispatchFrom(w, listenFd, evs, j, accepts, recvs, fate)
    decreases |evs| - j
  {
    DispatchStopsAt(w, listenFd, evs, j, at, accepts, recvs, fate);
    var pre := evs[..at + 1];
    var ev := evs[j];
    assert pre[j] == ev;
    if j < at {
      var w' := if Unusable(ev.events) then w.(closed := w.closed + [ev.fd])
                else if ev.fd != listenFd then IngestSpec(w, ev.fd, recvs(j), fate).world
                else AcceptSpec(w, accepts(j).connFd, accepts(j).host, accepts(j).port, accepts(j).joinedAt);
      assert DispatchFrom(w, listenFd, evs, j, accepts, recvs, fate) == DispatchFrom(w', listenFd, evs, j + 1, accepts, recvs, fate);
      assert DispatchFrom(w, listenFd, pre, j, accepts, recvs, fate) == DispatchFrom(w', listenFd, pre, j + 1, accepts, recvs, fate);
      DispatchIgnoresRest(w', listenFd, evs, j + 1, at, accepts, recvs, fate);
    }
  }

  /** An accepted connection adds exactly one record — with the peer's
      host and port, the join time and no nickname — unless its descriptor
      is already registered, in which case the registry is unchanged; the
      descriptor is armed readable and edge-triggered. */
  lemma AcceptAddsOne(w: World, c: int, host: string, port: string, joinedAt: string)
    ensures var w' := AcceptSpec(w, c, host, port, joinedAt);
      && w'.clients.Keys == w.clients.Keys + {c}
      && (c !in w.clients ==>
            && |w'.clients| == |w.clients| + 1
            && w'.clients[c].clientIp == host && w'.clients[c].clientPort == port
            && w'.clients[c].joinedAt == joinedAt && !w'.clients[c].nicknameSet)
      && (c in w.clients ==> w'.clients == w.clients)
      && w'.armed == w.armed + [Arming(c, EventMask(true))]
      && EventMask(true) & EPOLLET != 0 && EventMask(true) & EPOLLIN != 0
      && w'.outbox == w.outbox && w'.closed == w.closed
  {
  }
}
