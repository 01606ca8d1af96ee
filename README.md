# qiaqia chat server: protocol engine and client registry

A Dafny model of the core of the qiaqia chat server. It covers the
per-connection protocol engine of `server_ns::Server`
(server/server.hpp) and the `clients` registry that the engine updates,
together with two helpers from common.h: the `trim` string helper and
the event mask chosen by `addfd`.

The model follows one worker thread as it handles one `epoll_wait`
result:
- a ready event for the listening socket accepts a connection, stores
  its record and arms its descriptor;
- a ready event for a client socket drains that socket with `recv` and
  then acts on the payload: the nickname handshake, the caution to a
  lone client, the `$ show users` listing, a `>` directed message, or a
  public chat line;
- a zero-byte read closes the connection and announces the departure.

The socket calls are inputs. `send` is a function from the attempt
number to Ok, WouldBlock or Fatal. `recv` is a script of outcomes per
ready event, and `accept` is an outcome per ready event. What the server
does is recorded as values: every send attempt with its notice and its
answer, every descriptor closed, every descriptor armed.

Files:
- `common.dfy` (module `Common`): the epoll bits and `EventMask`, plus
  `trim`. `trim` appears three times:
  - `Trimmed`, the intended result;
  - `Trim`, a method with the two index loops;
  - `TrimAsWritten`, which models `size_t` wrap-around to show what
    happens on blank input.
- `registry.dfy` (module `Registry`): the `ClientInfo` record and the
  `std::map` operations the server uses: `insert` that does not
  overwrite, and `operator[]` reads that default a missing key. It also
  gives the ascending key order in which `std::map` is iterated.
- `protocol.dfy` (module `Protocol`): the notices, the `recv` read loop
  (`ReadPhase`), the `strncasecmp` query test, and the directed-message
  field extraction with its `find_first_of`/`find_last_of`/`substr`
  arithmetic as written. `Classify` gives the precedence.
- `fanout.dfy` (module `Fanout`): the loop shared by `broadcast` and the
  directed send. It walks the registry in ascending order, tolerates a
  would-block and stops at the first failed send. It comes with a
  characterisation (`SendEachSpec`) against an independent list of
  recipients (`Recipients`).
- `server.dfy` (module `ChatServer`): a specification function per
  operation over a `World` value (the registry, the send record, the
  closed and armed descriptors). Class `Server` holds those four as
  fields. Its methods update the fields in place, with the loops of the
  source, and each method is proved to produce the new state its
  specification function gives.
- `properties.dfy` (module `Properties`): the behaviour the server
  promises, proved over the specification functions. It covers:
  - who receives what, in which order and with which return code;
  - how the registry changes;
  - how the read loop ends;
  - the precedence of the commands;
  - which ready events are looked at.

## Model

| member | source | states |
|---|---|---|
| Common.EventMask | common.h:41-46 | the mask always has EPOLLIN, has EPOLLET exactly when edge-triggering is asked for, and has no other bit |
| Common.Trimmed | common.h:61-77 | the trimmed string is never longer than its input |
| Common.TrimmedShape | common.h:61-77 | trimming gives the empty string exactly when the input is all spaces (or empty); otherwise the result has no space at either end |
| Common.TrimmedIsSlice | common.h:68-76 | with `i` the first and `j` the last non-space index, the result is exactly the slice from `i` to `j`, so interior spaces are kept |
| Common.PaddedTrimmed | common.h:61-77 | padding a string without edge spaces by blanks on both sides and trimming gives the string back |
| Common.TrimmedDropsTrailingSpace | common.h:71-72 | one more trailing space does not change the trimmed result |
| Common.TrimmedIdempotent | common.h:68-72 | trimming an already trimmed string changes nothing |
| Common.Trim | common.h:61-77 | the two index loops (forward past leading spaces, backward past trailing ones) copy out the intended trimmed string, for any input with a non-space character |
| Common.SizeDec | common.h:66 | `j - 1` on a 64-bit `size_t` is subtraction modulo 2^64, so 0 wraps to SIZE_MAX |
| Common.LeadingSpaces | common.h:68-69 | the forward loop never passes the end of the string; where it stops is given by `Common.LeadingSpacesStop` |
| Common.LeadingSpacesStop | common.h:68-69 | the forward loop stops at the first non-space character, and only spaces lie before it |
| Common.BackScanAsWritten | common.h:71-72 | the backward loop as written stops only inside the string |
| Common.TrimAsWritten | common.h:61-77 | `trim` as written, with None for a read outside the input; it has no contract of its own and is characterised by `Common.TrimAsWrittenAgrees` (intended result on input with a non-space character) and `Common.TrimAsWrittenOutOfBounds` (out-of-bounds read on blank input) |
| Common.BackScanRunsOff | common.h:66-72 | on an all-space string, the backward loop as written reads outside the string from any start |
| Common.BackScanFindsLast | common.h:71-72 | the backward loop stops at the last non-space character at or before its start |
| Common.TrimAsWrittenAgrees | common.h:61-77 | on input with a non-space character, `trim` as written (with `size_t` wrap-around) computes the intended trimmed string |
| Common.TrimAsWrittenOutOfBounds | common.h:66-72 | on the empty or an all-space string, `trim` as written reads outside its input, where the intended result is the empty string |
| Registry.Inserted | server/server.hpp:196-198 | `std::map::insert` adds the key; it stores the new record only when the key was absent and keeps the existing record otherwise; other keys are unchanged; the size grows by one exactly when the key was new |
| Registry.Least | server/server.hpp:104 | the first key visited is in the registry and no larger than any other key |
| Registry.Ascending | server/server.hpp:104 | `std::map` iteration visits registry keys only, in strictly increasing order, as many as the registry holds |
| Registry.AscendingComplete | server/server.hpp:119 | iteration visits every key of the registry |
| Protocol.UpToNul | server/server.hpp:335 | `std::string(buf)` is a prefix of the buffer without NUL, and stops at the first NUL |
| Protocol.ReadPhase | server/server.hpp:292-340 | the read loop fails only when some read reports an error other than an interrupt or would-block, and ends as a close only when some read returns zero bytes; `Protocol.ReadPhaseEnds` and `Protocol.ReadPhaseExhausted` give its full outcome |
| Protocol.ReadPhaseEnds | server/server.hpp:292-340 | the read loop retries interrupted reads and appends each chunk up to its first NUL; on the first other outcome it stops: would-block drains with the gathered payload, a zero-byte read closes, any other error fails; nothing after that outcome is read |
| Protocol.ReadPhaseExhausted | server/server.hpp:292-338 | a run of reads that all continue the loop drains with every chunk gathered in order |
| Protocol.DrainedPayload | server/server.hpp:333-338 | a drained payload extends what was gathered before and contains no NUL |
| Protocol.FirstSpace | server/server.hpp:375 | `find_first_of(' ')` gives the first space, or none when there is no space |
| Protocol.LastSpace | server/server.hpp:376 | `find_last_of(' ')` gives the last space, or none when there is no space |
| Protocol.DirectedFields | server/server.hpp:375-380 | with a space in the payload, the name field is the prefix of what follows the first space whose length is `pos2 - 1` (or all of it when that is shorter), so it may run past the last space; the message field is exactly what follows the last space, and holds no space |
| Protocol.DirectedOverrun | server/server.hpp:375-385 | ">x alice hi" is read as a directed message "hi" to "alice h": the name runs past the last space when the first space is not right after the `>` |
| Protocol.NoSpaceTrimmed | server/server.hpp:384-385 | a string without spaces is unchanged by `trim` |
| Protocol.DirectedRoundTrip | server/server.hpp:374-385 | "> name msg" (name without edge spaces, msg without spaces) is read as a directed message of `msg` to `name`; spaces inside the name are kept |
| Protocol.DirectedWithoutSpace | server/server.hpp:375-385 | a `>` payload without any space is both the name and the message |
| Protocol.DirectedTrailingSpace | server/server.hpp:376-385 | with a trailing space, the last space is the trailing one: "> alice  hello there " has name "alice  hello there" and an empty message |
| Protocol.ShowUsersIgnoresCase | server/server.hpp:371 | the query test ignores ASCII case in the first twelve characters |
| Protocol.ShowUsersPrefix | server/server.hpp:371 | any payload that starts with "$ show users" selects the listing, whatever follows |
| Protocol.IsShowUsers | server/server.hpp:371 | the 12-character case-insensitive prefix test; no contract of its own, characterised by `Protocol.ShowUsersIgnoresCase` and `Protocol.ShowUsersPrefix` |
| Protocol.Classify | server/server.hpp:371-385 | the order of the tests (query, then `>` form, then chat line); no contract of its own, characterised by `Protocol.ShowUsersPrefix`, `Protocol.DirectedRoundTrip`, `Protocol.DirectedOverrun`, `Protocol.DirectedWithoutSpace`, `Protocol.DirectedTrailingSpace` and, on the server, `Properties.ShowUsersAnswersOnlySender`, `Properties.DirectedOnlyToNamed` and `Properties.SayBroadcastsToOthers` |
| Fanout.Recipients | server/server.hpp:104-105 | the recipients are exactly the addressed keys, in the visiting order, so ascending when the keys are |
| Fanout.SendEach | server/server.hpp:104-111 | the fan-out loop over the keys; no contract of its own, characterised by `Fanout.SendEachSpec` |
| Fanout.DescribesCons | server/server.hpp:104-111 | a successful send in front of a fan-out over the rest is a fan-out over the whole recipient list |
| Fanout.SendEachSpec | server/server.hpp:103-113 | the fan-out loop attempts a prefix of its recipients in order, each once, with the network's answer for that attempt; no attempt but the last failed; it succeeds exactly when no send failed, and then it has attempted all of them; otherwise its last attempt is the first failure and no later recipient is tried |
| ChatServer.Rows | server/server.hpp:119-125 | one listing row per visited key, in order, each with host, port, join time and nickname of that client |
| ChatServer.FanoutSpec | server/server.hpp:103-113 | a fan-out as a function of the world; no contract of its own, characterised by `Properties.FanoutAttempts` and `Properties.BroadcastAttempts`, and followed by `ChatServer.Server.Broadcast` and `ChatServer.Server.SendDirected` |
| ChatServer.ListingOf | server/server.hpp:115-131 | the listing notice; no contract of its own, characterised by `Properties.ListingComplete` |
| ChatServer.DepartSpec | server/server.hpp:308-332 | the close path; no contract of its own, characterised by `Properties.LeaveRemovesHandle` |
| ChatServer.CommandSpec | server/server.hpp:371-408 | the command after the handshake; no contract of its own, characterised by `Properties.ShowUsersAnswersOnlySender`, `Properties.DirectedOnlyToNamed`, `Properties.DirectedToNoOne` and `Properties.SayBroadcastsToOthers` |
| ChatServer.InterpretSpec | server/server.hpp:345-408 | a non-empty payload; no contract of its own, characterised by `Properties.HandshakeSetsNickname`, `Properties.CautionFirst` and the command lemmas |
| ChatServer.IngestSpec | server/server.hpp:284-409 | `get_msg_and_forward_to_clients`; no contract of its own, characterised by `Properties.IngestOutcome`, `Properties.IngestExhausted` and `Properties.NicknameFixedAfterHandshake` |
| ChatServer.AcceptSpec | server/server.hpp:255-267 | a new connection; no contract of its own, characterised by `Properties.AcceptAddsOne` |
| ChatServer.DispatchFrom | server/server.hpp:230-278 | the pass over the ready events; no contract of its own, characterised by `Properties.UnusableRunClosed`, `Properties.UnusableEventsClosed`, `Properties.DispatchBreaksAt`, `Properties.DispatchRunsToEnd`, `Properties.DispatchStopsAt` and `Properties.DispatchIgnoresRest` |
| ChatServer.Server.constructor | server/server.hpp:87-89 | the server starts with an empty registry and no sends, closes or armings |
| ChatServer.Server.StoreClient | server/server.hpp:183-198 | the fresh record (address, join time, no nickname) is inserted without overwriting; nothing else changes |
| ChatServer.Server.Send | server/server.hpp:365-367 | one send is recorded with the network's answer; -1 exactly when it failed |
| ChatServer.Server.Broadcast | server/server.hpp:103-113 | the loop over the registry leaves exactly the state and code of the fan-out to everyone but the sender |
| ChatServer.Server.SendDirected | server/server.hpp:388-396 | the loop over the registry leaves exactly the state and code of the fan-out to the clients with the target nickname |
| ChatServer.Server.ShowUsers | server/server.hpp:115-131 | the listing built row by row, sent to the asking client alone, is the count and the rows of the registry in ascending order |
| ChatServer.Server.Depart | server/server.hpp:308-332 | the close path closes the descriptor, erases the record and broadcasts the leave notice with the nickname read before the erase |
| ChatServer.Server.Interpret | server/server.hpp:345-408 | a non-empty payload is handled in the source's order: handshake, caution, listing, directed message, chat line |
| ChatServer.Server.Ingest | server/server.hpp:284-409 | the `for (;;)` read loop, then the action on how it ended, leave exactly the state and code of the specification |
| ChatServer.Server.DispatchReady | server/server.hpp:230-278 | the pass over the ready-event array leaves exactly the state and end of the specification, including the `break` on an accept that would block |
| Properties.DescribedFannedOut | server/server.hpp:103-113 | attempts made in order over the addressed handles in ascending order reach only addressed handles, ascending, each once; no attempt but the last failed; they succeed exactly when no send failed, and then reach every addressed handle; otherwise the last attempt is the first failure and every addressed handle below it was attempted |
| Properties.BatchFannedOut | server/server.hpp:104-111 | the fan-out loop over the registry's keys in ascending order makes exactly such attempts |
| Properties.FanoutAttempts | server/server.hpp:103-113 | a fan-out only appends send attempts, changes nothing else and returns 0 or -1 |
| Properties.BroadcastAttempts | server/server.hpp:103-113 | `broadcast` never sends to the sender; it attempts registered others once each, ascending; no send but the last failed; it returns 0 exactly when no send failed, and then all others were attempted; on -1 the last attempt is the first failure, every other handle below it was attempted and no later handle is tried; the registry is unchanged |
| Properties.LeaveRemovesHandle | server/server.hpp:308-332 | after a zero-byte read the handle is closed and absent from the registry; the registry shrinks by one exactly when the handle was present; the leave notice goes only to remaining handles, and to all of them on 0 |
| Properties.IngestOutcome | server/server.hpp:292-344 | another error returns -1 with nothing changed; a zero-byte read takes the close path; would-block with nothing gathered returns 0 with nothing changed; otherwise the gathered chunks are interpreted as one payload |
| Properties.IngestExhausted | server/server.hpp:292-344 | when the socket has nothing more to read, the gathered chunks are interpreted, or nothing happens when none was gathered |
| Properties.HandshakeSetsNickname | server/server.hpp:347-359 | the first payload becomes the whole nickname and sets the flag; a missing handle is created by `operator[]` as the default record (no address, no join time, handle 0); other records are unchanged; only the welcome is sent, to registered handles other than the sender, and to all of them on 0; nothing is closed or armed |
| Properties.NicknameFixedAfterHandshake | server/server.hpp:347-408 | once the nickname is set, draining the socket never changes the registry except by removing the handle on close, so the nickname never changes again |
| Properties.CautionFirst | server/server.hpp:364-374 | a lone client is sent the caution first; a failed caution returns -1, and otherwise the payload is still carried out |
| Properties.ShowUsersAnswersOnlySender | server/server.hpp:371-373 | the query is answered with exactly one send, the listing to the sender, and nothing else changes |
| Properties.ListingComplete | server/server.hpp:117-125 | the header counts the clients; there is one row per client; every client's row appears and every row belongs to a client; row `i` is the row of the `i`-th handle in ascending order |
| Properties.DirectedOnlyToNamed | server/server.hpp:374-396 | a directed message reaches only clients with the target nickname, once each, ascending, with the message body; no send but the last failed; on 0 it has reached all of them; the registry is unchanged and nothing is closed or armed |
| Properties.DirectedToNoOne | server/server.hpp:388-396 | with no client of that nickname nothing is sent and the result is 0 |
| Properties.NobodyAddressed | server/server.hpp:388-389 | with no key addressed, the loop has no recipients |
| Properties.SayBroadcastsToOthers | server/server.hpp:399-408 | any other payload goes as "[nickname] say >> payload" to registered handles other than the sender only, and to all of them on 0; the registry is unchanged and nothing is closed or armed |
| Properties.UnusableRunClosed | server/server.hpp:234-240 | any run of error, hang-up and unreadable events is closed in order and skipped: the pass goes on after the run with nothing changed but those descriptors closed |
| Properties.UnusableEventsClosed | server/server.hpp:234-240 | when every remaining event is unusable, they are all closed in order and the pass ends with every event handled |
| Properties.ReusedHandleKeepsRecord | server/server.hpp:234-264 | a hang-up on a registered descriptor closes it but keeps its record; an `accept` that hands the same number out again keeps that stale record, nickname and handshake flag included |
| Properties.DispatchBreaksAt | server/server.hpp:234-253 | the first usable event of the listening descriptor whose accept gives no descriptor ends the pass there: as `AcceptDrained` on a would-block (the `break`), as `AcceptError` on any other failure (`errExit`) |
| Properties.DispatchRunsToEnd | server/server.hpp:230-278 | with no such event, the pass handles every event |
| Properties.DispatchStopsAt | server/server.hpp:243-253 | conversely, a pass that ends at an accept ends at a usable event of the listening descriptor whose accept gave no descriptor |
| Properties.DispatchIgnoresRest | server/server.hpp:246-249 | the ready events after that one are never looked at |
| Properties.AcceptAddsOne | server/server.hpp:183-198 | an accepted connection adds exactly one record (peer host and port, join time, no nickname) unless its descriptor is already present, in which case the registry is unchanged; the descriptor is armed readable and edge-triggered |

## Left out

- Socket setup (`get_listen_fd`, `start_server`, the destructor), `epoll_create`, `epoll_wait` and its failure, `pthread_create`/`pthread_join`, and the two mutexes: these are OS plumbing and concurrency. The model is one worker that handles one `epoll_wait` result in sequence.
- `recv`, `send`, `accept`, `getnameinfo`, `epoll_ctl`, `fcntl`/`set_nonblocking`, `close` and `errExit`:
  - `send` is a function of the attempt number;
  - `recv` is a script of outcomes per ready event;
  - `accept` gives an outcome per ready event, with arbitrary host and port strings: what `getnameinfo` wrote, or the buffers' old contents when it failed (server/server.hpp:255-261);
  - a failing `close` or `epoll_ctl` (which exits the process) is not modelled;
  - an accept error, which calls `errExit`, ends the pass as `AcceptError`.
- The `ctime` join stamp is an opaque string parameter.
- The logger and the `__DEVELOPMENT__` output.
- Byte-exact `sprintf` formatting with ANSI colour codes: notices are tagged values. `broadcast` always sends `MAXLINE` bytes; the model records the notice.
- The `errno != EAGAIN || errno != EWOULDBLOCK` test is collapsed into the send answer Fatal versus WouldBlock. With Linux's equal values it tolerates exactly a would-block.
- Memory-safety defects are not reproduced; strings are values:
  - the `c_str()` pointer kept across `erase` (server/server.hpp:313-316);
  - the `name_c`/`msg_c` buffers one byte too short for the terminator (server/server.hpp:383);
  - `sprintf` overflow of `MAXLINE` buffers (server/server.hpp:117-126);
  - `sprintf(message, "%s...", message, ...)` writing into the buffer it reads (server/server.hpp:118, 120, 126), which is undefined behaviour; `ChatServer.Rows` and `ChatServer.ListingOf` take it as the append it was meant to be;
  - a full 8192-byte read without a NUL (server/server.hpp:293, 335), where `UpToNul` takes the whole chunk.
- Common.TrimAsWritten: assumes strings shorter than 2^64 - 1 characters, so that `strlen` fits `size_t`.
- Common.Trim: requires a non-space character in its input. Blank input is undefined behaviour in the source; see Findings.
- Protocol.Classify: trims the name and message fields with the intended `Common.Trimmed`. A blank field, such as the name of "> bob" or the message of "> alice ", is undefined behaviour in the source (server/server.hpp:384-385 calling common.h:66-72; see Findings), and the model gives it the empty string.
- Behaviour of the code that the model keeps, although a reader might expect otherwise:
  - an error or hang-up event closes the descriptor but does not erase its registry record (server/server.hpp:235-239). As `insert` never overwrites (server/server.hpp:197), a descriptor number that `accept` hands out again keeps the stale record, handshake flag included, so the new client skips the handshake and speaks under the old nickname (`Properties.ReusedHandleKeepsRecord`);
  - the name is cut with `pos2 - 1` as its length (server/server.hpp:379), so when the first space is not right after the `>` it runs past the last space: ">x alice hi" is a message "hi" to "alice h" (`Protocol.DirectedOverrun`);
  - "> alice  hello there " gives the name "alice  hello there" and an empty message field, because the last space is the trailing one (server/server.hpp:376-380); the empty message is what the intended trim makes of that field;
  - the caution to a lone client does not end the handling of the payload (server/server.hpp:364-368);
  - the leave notice of a client that never finished the handshake carries an empty nickname (server/server.hpp:313, 330).

## Findings

| source | as written | input that shows it | evidently intended | confidence | as-written member | corrected member |
|---|---|---|---|---|---|---|
| common.h:66-72 | `j = strlen(strIn) - 1` and `while (strIn[j] == ' ') --j;` with `size_t j` | the empty string (e.g. the name of "> bob", which is `substr(2, 0)`) or an all-space string: `j` wraps to SIZE_MAX, or walks below index 0, and reads outside the buffer | a blank string trims to the empty string | not executed | Common.TrimAsWrittenOutOfBounds | Common.TrimmedShape |
