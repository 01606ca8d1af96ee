/** The per-connection wire protocol of server/server.hpp: what one `recv`
    can report, how a drain of the socket accumulates the payload, and how a
    payload is told apart as a user-list query, a directed message or a
    public chat line. The notices the server sends are tagged values rather
    than formatted bytes. */
module Protocol {
  import opened Common
  import opened Registry

  // ---------------------------------------------------------------------
  // Notices
  // ---------------------------------------------------------------------

  /** One line of the user listing: host, port, join time, nickname. */
  datatype Row = Row(host: string, port: string, joinedAt: string, nickname: string)

  function RowOf(c: ClientInfo): Row
  {
    Row(c.clientIp, c.clientPort, c.joinedAt, c.nickname)
  }

  /** What the server sends. */
  datatype Notice =
    | Welcome(nickname: string)              // SERVER_WELCOME: a client finished its handshake
    | Leave(nickname: string)                // LEAVE_INFO: a client closed its connection
    | Caution                                // CAUTION: the sender is alone in the room
    | Chat(nickname: string, text: string)   // SERVER_MESSAGE: "[nickname] say >> text"
    | Listing(count: nat, rows: seq<Row>)    // the user listing: header count, then one row per client
    | Direct(text: string)                   // the body of a directed message, sent as is

  // ---------------------------------------------------------------------
  // Draining a ready socket
  // ---------------------------------------------------------------------

  /** What one `recv` on the client socket reports. `Data` carries the bytes
      of the read; an empty `Data` is a read of zero bytes, as `Zero` is. */
  datatype RecvOutcome = Data(bytes: string) | Zero | Eintr | Eagain | OtherError

  /** How the read loop ends: the socket is drained with a payload, the peer
      closed, or the read failed. */
  datatype ReadEnd = Drained(payload: string) | Closed | Failed

  /** `std::string(buf)`: the bytes of the buffer up to its first NUL. */
  function UpToNul(b: string): (r: string)
    ensures r <= b
    ensures '\0' !in r
    ensures |r| < |b| ==> b[|r|] == '\0'
  {
    if b == [] || b[0] == '\0' then []
    else
      var r := [b[0]] + UpToNul(b[1..]);
      assert r[1..] == UpToNul(b[1..]);
      r
  }

  /** The `for (;;)` read loop of `get_msg_and_forward_to_clients` over the
      outcomes `recv` reports, with `acc` the bytes gathered so far. An
      exhausted script reads as would-block: the socket has nothing more.
      The loop fails only on an error other than an interrupt or
      would-block, and ends as a close only on a zero-byte read. */
  function ReadPhase(script: seq<RecvOutcome>, acc: string): (r: ReadEnd)
    ensures (forall k | 0 <= k < |script| :: !script[k].OtherError?) ==> !r.Failed?
    ensures (forall k | 0 <= k < |script| :: script[k] != Zero && script[k] != Data([])) ==> !r.Closed?
    decreases |script|
  {
    if script == [] then Drained(acc)
    else
      match script[0]
      case Eintr => ReadPhase(script[1..], acc)
      case Eagain => Drained(acc)
      case OtherError => Failed
      case Zero => Closed
      case Data(b) => if b == [] then Closed else ReadPhase(script[1..], acc + UpToNul(b))
  }

  /** An outcome after which the loop reads again: an interrupted call or a
      read of at least one byte. */
  predicate Continues(o: RecvOutcome)
  {
    o.Eintr? || (o.Data? && o.bytes != [])
  }

  /** Reference definition of what a run of continuing reads contributes:
      each chunk up to its first NUL, in order. */
  function Gathered(steps: seq<RecvOutcome>): string
  {
    if steps == [] then []
    else (if steps[0].Data? then UpToNul(steps[0].bytes) else []) + Gathered(steps[1..])
  }

  /** How a terminating outcome ends the loop, given the payload so far. */
  function EndOn(t: RecvOutcome, payload: string): ReadEnd
    requires !Continues(t)
  {
    match t
    case Eagain => Drained(payload)
    case OtherError => Failed
    case _ => Closed  // a zero-byte read; an interrupted read continues and never ends the loop
  }

  /** The read loop retries interrupted reads, appends each chunk up to its
      first NUL, and stops on the first other outcome: would-block keeps the
      payload, any other error fails, a zero-byte read is a close. Nothing
      after that outcome is read. */
  lemma {:induction false} ReadPhaseEnds(steps: seq<RecvOutcome>, t: RecvOutcome, rest: seq<RecvOutcome>, acc: string)
    requires forall k | 0 <= k < |steps| :: Continues(steps[k])
    requires !Continues(t)
    ensures ReadPhase(steps + [t] + rest, acc) == EndOn(t, acc + Gathered(steps))
    decreases |steps|
  {
    var s := steps + [t] + rest;
    if steps == [] {
      assert s[0] == t;
    } else {
      assert s[0] == steps[0];
      assert s[1..] == steps[1..] + [t] + rest;
      if steps[0].Eintr? {
        ReadPhaseEnds(steps[1..], t, rest, acc);
        assert Gathered(steps) == Gathered(steps[1..]);
      } else {
        var chunk := UpToNul(steps[0].bytes);
        ReadPhaseEnds(steps[1..], t, rest, acc + chunk);
        assert acc + chunk + Gathered(steps[1..]) == acc + Gathered(steps);
      }
    }
  }

  /** A script of continuing reads only drains with everything it gathered. */
  lemma {:induction false} ReadPhaseExhausted(steps: seq<RecvOutcome>, acc: string)
    requires forall k | 0 <= k < |steps| :: Continues(steps[k])
    ensures ReadPhase(steps, acc) == Drained(acc + Gathered(steps))
    decreases |steps|
  {
    if steps == [] {
      assert acc + Gathered(steps) == acc;
    } else if steps[0].Eintr? {
      ReadPhaseExhausted(steps[1..], acc);
      assert Gathered(steps) == Gathered(steps[1..]);
    } else {
      var chunk := UpToNul(steps[0].bytes);
      ReadPhaseExhausted(steps[1..], acc + chunk);
      assert acc + chunk + Gathered(steps[1..]) == acc + Gathered(steps);
    }
  }

  /** A drained payload extends what was gathered before and holds no NUL. */
  lemma {:induction false} DrainedPayload(script: seq<RecvOutcome>, acc: string)
    requires ReadPhase(script, acc).Drained?
    ensures acc <= ReadPhase(script, acc).payload
    ensures '\0' !in acc ==> '\0' !in ReadPhase(script, acc).payload
    decreases |script|
  {
    if script != [] {
      match script[0]
      case Eintr => DrainedPayload(script[1..], acc);
      case Data(b) =>
        if b != [] {
          DrainedPayload(script[1..], acc + UpToNul(b));
          assert acc <= acc + UpToNul(b);
        }
      case _ =>
    }
  }

  // ---------------------------------------------------------------------
  // Interpreting a payload
  // ---------------------------------------------------------------------

  const SHOW_USERS := "$ show users"

  /** `tolower` in the C locale. */
  function Lower(c: char): char
  {
    if 'A' <= c <= 'Z' then (c as int + 32) as char else c
  }

  /** `strncasecmp(payload, "$ show users", 12) == 0`: the first twelve
      characters match the command ignoring ASCII case; a shorter payload
      fails on its terminator. */
  predicate IsShowUsers(p: string)
  {
    |p| >= |SHOW_USERS| && forall k | 0 <= k < |SHOW_USERS| :: Lower(p[k]) == Lower(SHOW_USERS[k])
  }

  /** `find_first_of(' ')`, with None for `npos`. */
  function FirstSpace(s: string): (r: Option<nat>)
    ensures r.None? ==> forall k | 0 <= k < |s| :: s[k] != ' '
    ensures r.Some? ==> r.value < |s| && s[r.value] == ' '
    ensures r.Some? ==> forall k | 0 <= k < r.value :: s[k] != ' '
  {
    if s == [] then None
    else if s[0] == ' ' then Some(0)
    else
      match FirstSpace(s[1..])
      case None => None
      case Some(i) => Some(i + 1)
  }

  /** `find_last_of(' ')`, with None for `npos`. */
  function LastSpace(s: string): (r: Option<nat>)
    ensures r.None? ==> forall k | 0 <= k < |s| :: s[k] != ' '
    ensures r.Some? ==> r.value < |s| && s[r.value] == ' '
    ensures r.Some? ==> forall k | r.value < k < |s| :: s[k] != ' '
  {
    if s == [] then None
    else if s[|s| - 1] == ' ' then Some(|s| - 1)
    else
      var r := LastSpace(s[..|s| - 1]);
      assert forall k | 0 <= k < |s| - 1 :: s[k] == s[..|s| - 1][k];
      r
  }

  /** The untrimmed name and message of a directed payload, as the source
      cuts them: `substr(pos1 + 1, pos2 - 1)`, which takes `pos2 - 1` as a
      LENGTH, and `substr(pos2 + 1)`. Without any space both positions are
      `npos`: `npos + 1` wraps to 0 and `npos - 1` outruns the string, so
      both fields are the whole payload. With a space, the name is the
      prefix of what follows the first space that is `pos2 - 1` long, or all
      of it when that is shorter, so it may run past the last space; the
      message is what follows the last space, a single word. */
  function DirectedFields(p: string): (r: (string, string))
    ensures FirstSpace(p).Some? ==> r.0 <= p[FirstSpace(p).value + 1..]
    ensures FirstSpace(p).Some? && LastSpace(p).value > 0 ==>
      var room := |p| - FirstSpace(p).value - 1;
      |r.0| == if LastSpace(p).value - 1 <= room then LastSpace(p).value - 1 else room
    ensures LastSpace(p).Some? ==> r.1 == p[LastSpace(p).value + 1..]
    ensures FirstSpace(p).Some? ==> forall k | 0 <= k < |r.1| :: r.1[k] != ' '
  {
    match (FirstSpace(p), LastSpace(p))
    case (Some(pos1), Some(pos2)) =>
      var len := if pos2 == 0 then |p| else pos2 - 1;  // pos2 - 1 wraps to npos when pos2 is 0
      var end := if pos1 + 1 + len <= |p| then pos1 + 1 + len else |p|;
      (p[pos1 + 1..end], p[pos2 + 1..])
    case _ => (p, p)
  }

  /** What a payload asks for, once the handshake is done. */
  datatype Command = ListUsers | Directed(target: string, body: string) | Say(text: string)

  /** The precedence of `get_msg_and_forward_to_clients`: the user-list
      query first, then the `'>'` directed form (name and message each
      trimmed), and otherwise a public chat line. */
  function Classify(p: string): Command
  {
    if IsShowUsers(p) then ListUsers
    else if |p| > 0 && p[0] == '>' then
      var fields := DirectedFields(p);
      Directed(Trimmed(fields.0), Trimmed(fields.1))
    else Say(p)
  }

  /** A string without any space is its own trim. */
  lemma NoSpaceTrimmed(s: string)
    requires forall k | 0 <= k < |s| :: s[k] != ' '
    ensures Trimmed(s) == s
  {
  }

  /** The directed form "> name message" reaches `name` with `message`:
      the name is what lies between the first and the last space (spaces
      inside it are kept) and the message is what follows the last space. */
  lemma DirectedRoundTrip(name: string, msg: string)
    requires name == [] || (name[0] != ' ' && name[|name| - 1] != ' ')
    requires forall k | 0 <= k < |msg| :: msg[k] != ' '
    ensures Classify("> " + name + " " + msg) == Directed(name, msg)
  {
    var p := "> " + name + " " + msg;
    var split := 2 + |name|;
    assert p[0] == '>' && p[1] == ' ' && p[split] == ' ';
    assert !IsShowUsers(p) by { assert Lower(p[0]) != Lower(SHOW_USERS[0]); }
    assert FirstSpace(p) == Some(1);
    forall k | split < k < |p| ensures p[k] != ' ' {
      assert p[k] == msg[k - split - 1];
    }
    assert LastSpace(p) == Some(split);
    assert p[2..split + 1] == name + " ";
    assert p[split + 1..] == msg;
    assert DirectedFields(p) == (name + " ", msg);
    TrimmedDropsTrailingSpace(name);
    NoSpaceTrimmed(msg);
  }

  /** With no space at all, the whole payload is both the name and the
      message. */
  lemma DirectedWithoutSpace(p: string)
    requires |p| > 0 && p[0] == '>'
    requires forall k | 0 <= k < |p| :: p[k] != ' '
    ensures Classify(p) == Directed(p, p)
  {
    assert !IsShowUsers(p) by { assert Lower(p[0]) != Lower(SHOW_USERS[0]); }
    NoSpaceTrimmed(p);
  }

  /** "> alice  hello there " has its last space at the very end: the name
      becomes everything in between and the message field is empty. The
      message shown is what the intended trim makes of that empty field;
      `trim` as written reads outside an empty string (see
      `Common.TrimAsWrittenOutOfBounds`). */
  lemma DirectedTrailingSpace()
    ensures Classify("> " + "alice  hello there" + " ") == Directed("alice  hello there", "")
  {
    var name := "alice  hello there";
    assert name[0] == 'a' && name[|name| - 1] == 'e';
    DirectedRoundTrip(name, "");
    assert "> " + name + " " + "" == "> " + name + " ";
  }

  /** When the first space is not right after the `>`, the name field runs
      past the last space: in ">x alice hi" the first space is at 2 and the
      last at 8, so `substr(3, 7)` takes "alice h", and the message is "hi". */
  lemma DirectedOverrun()
    ensures Classify(">x alice hi") == Directed("alice h", "hi")
  {
    var p := ">x alice hi";
    assert |p| == 11 && p[0] == '>' && p[2] == ' ' && p[8] == ' ';
    assert !IsShowUsers(p) by { assert Lower(p[0]) != Lower(SHOW_USERS[0]); }
    assert FirstSpace(p) == Some(2) by { assert p[0] != ' ' && p[1] != ' '; }
    assert LastSpace(p) == Some(8) by { assert p[9] != ' ' && p[10] != ' '; }
    assert p[3..10] == "alice h";
    assert p[9..] == "hi";
    PaddedTrimmed("", "alice h", "");
    NoSpaceTrimmed("hi");
  }

  /** Case variants of the query all select the listing. */
  lemma ShowUsersIgnoresCase(p: string, q: string)
    requires |p| == |q| && forall k | 0 <= k < |p| :: Lower(p[k]) == Lower(q[k])
    ensures IsShowUsers(p) == IsShowUsers(q)
    ensures IsShowUsers(p) ==> Classify(q) == ListUsers
  {
  }

  /** Whatever follows the twelve characters of the query, the payload
      selects the listing. */
  lemma ShowUsersPrefix(rest: string)
    ensures Classify(SHOW_USERS + rest) == ListUsers
  {
    var p := SHOW_USERS + rest;
    forall k | 0 <= k < |SHOW_USERS| ensures Lower(p[k]) == Lower(SHOW_USERS[k]) {
      assert p[k] == SHOW_USERS[k];
    }
  }
}
