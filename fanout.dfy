/** Fan-out in server/server.hpp: `broadcast` and the directed-message loop
    both walk the registry in ascending descriptor order, send one notice to
    each addressed client, tolerate a send that would block, and give up at
    the first send that fails for any other reason. */
module Fanout {
  import opened Registry
  import opened Protocol

  /** What one `send` reports: sent, would block (tolerated), or failed. */
  datatype SendStatus = Ok | WouldBlock | Fatal

  /** The network's answer to the n-th send attempt of the run. */
  type SendOracle = nat -> SendStatus

  /** One send attempt: to whom, what, and with which result. */
  datatype Delivery = Delivery(fd: int, notice: Notice, status: SendStatus)

  /** Who a fan-out addresses: every client but the sender (`broadcast`), or
      every client with a given nickname (a directed message). */
  datatype Audience = AllBut(sender: int) | Named(name: string)

  predicate Addressed(a: Audience, m: Clients, fd: int)
  {
    match a
    case AllBut(s) => fd != s
    case Named(n) => fd in m && m[fd].nickname == n
  }

  /** Reference definition of the recipients: the addressed keys, in the
      order given. */
  function Recipients(m: Clients, keys: seq<int>, a: Audience): (t: seq<int>)
    ensures forall k :: k in t <==> k in keys && Addressed(a, m, k)
    ensures Increasing(keys) ==> Increasing(t)
    ensures |t| <= |keys|
  {
    if keys == [] then []
    else
      var rest := Recipients(m, keys[1..], a);
      if Addressed(a, m, keys[0]) then
        assert Increasing(keys) ==> forall j | 0 <= j < |rest| :: keys[0] < rest[j] by {
          if Increasing(keys) {
            forall j | 0 <= j < |rest| ensures keys[0] < rest[j] {
              assert rest[j] in rest;
              var i :| 0 <= i < |keys[1..]| && keys[1..][i] == rest[j];
              assert keys[i + 1] == rest[j];
            }
          }
        }
        [keys[0]] + rest
      else rest
  }

  /** The attempts of one fan-out and whether it ran to the end (0) or
      stopped at a failed send (-1). */
  datatype Batch = Batch(attempts: seq<Delivery>, ok: bool)

  /** The fan-out loop over `keys`, with `base` the number of send attempts
      made before it. */
  function SendEach(m: Clients, keys: seq<int>, a: Audience, n: Notice, fate: SendOracle, base: nat): Batch
    decreases |keys|
  {
    if keys == [] then Batch([], true)
    else if !Addressed(a, m, keys[0]) then SendEach(m, keys[1..], a, n, fate, base)
    else
      var d := Delivery(keys[0], n, fate(base));
      if d.status == Fatal then Batch([d], false)
      else
        var rest := SendEach(m, keys[1..], a, n, fate, base + 1);
        Batch([d] + rest.attempts, rest.ok)
  }

  /** `b` is the fan-out over recipients `t`: it attempts a prefix of them
      in order, each once, with the oracle's answer for that attempt; no
      attempt but the last failed; it succeeds exactly when no attempt
      failed, and then it has attempted every recipient; otherwise its last
      attempt is the first failure and no later recipient is tried. */
  ghost predicate Describes(b: Batch, t: seq<int>, n: Notice, fate: SendOracle, base: nat)
  {
    && |b.attempts| <= |t|
    && (forall i | 0 <= i < |b.attempts| :: b.attempts[i] == Delivery(t[i], n, fate(base + i)))
    && (forall i | 0 <= i < |b.attempts| - 1 :: b.attempts[i].status != Fatal)
    && (b.ok <==> forall i | 0 <= i < |b.attempts| :: b.attempts[i].status != Fatal)
    && (b.ok ==> |b.attempts| == |t|)
    && (!b.ok ==> |b.attempts| > 0 && b.attempts[|b.attempts| - 1].status == Fatal)
  }

  /** A successful first attempt in front of a fan-out over the rest. */
  lemma DescribesCons(b: Batch, t: seq<int>, k: int, n: Notice, fate: SendOracle, base: nat)
    requires Describes(b, t, n, fate, base + 1)
    requires fate(base) != Fatal
    ensures Describes(Batch([Delivery(k, n, fate(base))] + b.attempts, b.ok), [k] + t, n, fate, base)
  {
    var b' := Batch([Delivery(k, n, fate(base))] + b.attempts, b.ok);
    var t' := [k] + t;
    forall i | 1 <= i < |b'.attempts|
      ensures b'.attempts[i] == Delivery(t'[i], n, fate(base + i))
    {
      assert b'.attempts[i] == b.attempts[i - 1];
      assert t'[i] == t[i - 1];
    }
    forall i | 1 <= i < |b'.attempts| - 1 ensures b'.attempts[i].status != Fatal {
      assert b'.attempts[i] == b.attempts[i - 1];
    }
    assert (forall i | 0 <= i < |b'.attempts| :: b'.attempts[i].status != Fatal)
      <==> (forall i | 0 <= i < |b.attempts| :: b.attempts[i].status != Fatal) by {
      assert b'.attempts[0].status == fate(base);
      if forall i | 0 <= i < |b.attempts| :: b.attempts[i].status != Fatal {
        forall i | 1 <= i < |b'.attempts| ensures b'.attempts[i].status != Fatal {
          assert b'.attempts[i] == b.attempts[i - 1];
        }
      }
      if forall i | 0 <= i < |b'.attempts| :: b'.attempts[i].status != Fatal {
        forall i | 0 <= i < |b.attempts| ensures b.attempts[i].status != Fatal {
          assert b'.attempts[i + 1] == b.attempts[i];
        }
      }
    }
  }

  /** The fan-out loop is described by its recipients. */
  lemma {:induction false} SendEachSpec(m: Clients, keys: seq<int>, a: Audience, n: Notice, fate: SendOracle, base: nat)
    ensures Describes(SendEach(m, keys, a, n, fate, base), Recipients(m, keys, a), n, fate, base)
    decreases |keys|
  {
    if keys != [] {
      var t := Recipients(m, keys[1..], a);
      if !Addressed(a, m, keys[0]) {
        SendEachSpec(m, keys[1..], a, n, fate, base);
        assert SendEach(m, keys, a, n, fate, base) == SendEach(m, keys[1..], a, n, fate, base);
        assert Recipients(m, keys, a) == t;
      } else if fate(base) != Fatal {
        var rest := SendEach(m, keys[1..], a, n, fate, base + 1);
        SendEachSpec(m, keys[1..], a, n, fate, base + 1);
        DescribesCons(rest, t, keys[0], n, fate, base);
        assert SendEach(m, keys, a, n, fate, base) == Batch([Delivery(keys[0], n, fate(base))] + rest.attempts, rest.ok);
        assert Recipients(m, keys, a) == [keys[0]] + t;
      } else {
        assert SendEach(m, keys, a, n, fate, base) == Batch([Delivery(keys[0], n, fate(base))], false);
        assert Recipients(m, keys, a) == [keys[0]] + t;
      }
    }
  }
}
