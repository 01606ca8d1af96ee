/** The client registry of server/server.hpp: the `std::map<int, ClientInfo>`
    from connection descriptor to per-client record, the `std::map`
    operations the server applies to it, and the ascending key order in which
    `std::map` is iterated. */
module Registry {

  /** One connected client (`ClientInfo`). */
  datatype ClientInfo = ClientInfo(
    clientIp: string,
    clientPort: string,
    nickname: string,
    joinedAt: string,
    connFd: int,
    nicknameSet: bool)

  type Clients = map<int, ClientInfo>

  /** The record `clients[fd]` default-constructs for a missing key. */
  const BLANK := ClientInfo("", "", "", "", 0, false)

  /** The record `store_client_infomation` builds for a fresh connection:
      address and join time set, no nickname yet. */
  function NewClient(connFd: int, host: string, port: string, joinedAt: string): ClientInfo
  {
    ClientInfo(host, port, "", joinedAt, connFd, false)
  }

  /** `clients[fd]` read without writing: the stored record, or the default
      record that `operator[]` would create. */
  function ClientAt(m: Clients, fd: int): (c: ClientInfo)
    ensures fd !in m ==> c == BLANK
  {
    if fd in m then m[fd] else BLANK
  }

  /** The nickname `clients[fd].clientNickname` reads: empty for a client
      that never completed the handshake, and for a missing key. */
  function NickOf(m: Clients, fd: int): string
  {
    ClientAt(m, fd).nickname
  }

  /** `std::map::insert`: adds the pair when the key is absent and leaves
      the map alone when it is present. */
  function Inserted(m: Clients, fd: int, c: ClientInfo): (r: Clients)
    ensures r.Keys == m.Keys + {fd}
    ensures r[fd] == if fd in m then m[fd] else c
    ensures forall k | k in m && k != fd :: r[k] == m[k]
    ensures |r| == if fd in m then |m| else |m| + 1
  {
    if fd in m then m else m[fd := c]
  }

  /** The least element of a non-empty set of descriptors. */
  function Least(s: set<int>): (k: int)
    requires s != {}
    ensures k in s && forall x | x in s :: k <= x
  {
    LeastExists(s);
    var k :| k in s && forall x | x in s :: k <= x;
    k
  }

  lemma LeastExists(s: set<int>)
    requires s != {}
    ensures exists k :: k in s && forall x | x in s :: k <= x
  {
    var k := LeastOf(s);
  }

  lemma {:induction false} LeastOf(s: set<int>) returns (k: int)
    requires s != {}
    ensures k in s && forall x | x in s :: k <= x
    decreases s
  {
    if forall x :: x !in s {
      assert false;
    }
    var y :| y in s;
    var s' := s - {y};
    if s' == {} {
      k := y;
      forall x | x in s ensures k <= x {
        assert x !in s';
      }
    } else {
      var k' := LeastOf(s');
      k := if y < k' then y else k';
      forall x | x in s ensures k <= x {
        if x != y { assert x in s'; }
      }
    }
  }

  /** Strictly increasing: the order in which `std::map` visits its keys. */
  predicate Increasing(ks: seq<int>)
  {
    forall i, j | 0 <= i < j < |ks| :: ks[i] < ks[j]
  }

  /** The keys of a registry in `std::map` iteration order: every key once,
      ascending. */
  function Ascending(s: set<int>): (ks: seq<int>)
    ensures forall i | 0 <= i < |ks| :: ks[i] in s
    ensures Increasing(ks)
    ensures |ks| == |s|
    decreases s
  {
    if s == {} then []
    else
      var k := Least(s);
      var rest := Ascending(s - {k});
      assert forall j | 0 <= j < |rest| :: k < rest[j] by {
        forall j | 0 <= j < |rest| ensures k < rest[j] {
        }
      }
      [k] + rest
  }

  /** Every key of the registry is visited. */
  lemma {:induction false} AscendingComplete(s: set<int>)
    ensures forall k | k in s :: k in Ascending(s)
    decreases s
  {
    if s != {} {
      var k := Least(s);
      AscendingComplete(s - {k});
    }
  }
}
