# Peer registration node: a verified model

This project models the core of a small peer-to-peer demo node written in Go.
A node listens for TCP connections. From each connection it reads one
newline-terminated JSON handshake record. When the decoded record's type is
`"HELLO"`, the node stores the sender's node id and address in an in-memory
registry, where the last write wins. At startup the node checks that it was
given an id and an address. It then dials each configured peer and sends its
own framed `HELLO` announcement.

The model has three modules:

- `Wire` (wire.dfy) holds the `Message` record (the Go struct at main.go:15-19,
  with `ZeroMessage` as its zero value), the byte framing `Frame`, and
  `ReadString`, which is what `bufio.Reader.ReadString('\n')` returns. It also
  holds the hypotheses about the JSON codec.
- `PeerRegistry` (registry.dfy) holds the registry. The class `Registry` has a
  `map<string, string>` field that `HandleConnection` updates in place. The
  class is specified by the pure functions `Handle` (one connection) and
  `Replay` (a sequence of connections). Lemmas about those functions give
  last-write-wins and the exact key set.
- `Node` (node.dfy) holds the startup identity check, the announcement and its
  bytes, the dial-each-peer loop, and a two-node lemma: a node that passed
  startup announces itself, and the receiving node records it.

JSON `Marshal` and `Unmarshal` are function-typed parameters. The facts used
about them are explicit hypotheses, stated as predicates and required only by
the lemmas that need them:

- `CodecRoundTrips`: marshalled bytes contain no raw `'\n'`, and unmarshalling a
  framed record gives the message back with no error.
- `SyntaxErrorLeavesZero`: input that is not JSON leaves the struct at its zero
  value.

The network is also a parameter. A handled connection is an abstract
`ReadOutcome`: either the record that was read, or an error. A list of dials is
paired with a list of outcomes, `dialOk[k]` being the outcome of the k-th dial.
So two dials of the same address can turn out differently.

A reader might expect some checks that the code does not make. The model
follows the code:

- One might expect an empty node id to be refused. The code checks only the
  type, so a `HELLO` with an empty `NodeID` is stored under `""`. The lemma
  `EmptyIdIsStored` states this.
- One might expect a record that fails to decode to be dropped. The code
  discards the error from `json.Unmarshal` and looks only at the struct it left
  behind. A record that is not JSON does leave the struct at its zero value, so
  it changes nothing (`SyntaxErrorLeavesRegistry`). A record whose type is
  `"HELLO"` but with a wrongly typed field is still partly decoded, and it is
  recorded. `DecodeErrorIgnored` states that the error plays no part.
- One might expect a failed `Accept` to be skipped. In the code, `ln.Accept()`
  returns a nil connection on error (main.go:58), and main.go:59 hands it to
  `handleConnection`. Evaluating `defer conn.Close()` on a nil interface
  (main.go:29) panics before any read. An unrecovered panic in a goroutine
  ends the whole process, registry included. So one failed Accept terminates
  the node.

## Model

| member | source | states |
|---|---|---|
| `Wire.Frame` | main.go:77 | The record ends in `'\n'`, and everything before that byte is the payload. A payload with no `'\n'` of its own gives a record holding exactly one. |
| `Wire.FirstNewline` | main.go:32 | Returns no position exactly when the bytes hold no `'\n'`. Otherwise it returns the position of a `'\n'` with no `'\n'` before it. |
| `Wire.ReadString` | main.go:32-35 | The read succeeds exactly when a `'\n'` arrives. The record read is then the shortest prefix of the stream that ends in `'\n'`. |
| `Wire.ReadFramed` | main.go:76-77 | Framing and reading are inverses. Take a payload with no `'\n'`, frame it, and append any bytes after it. Reading that stream yields exactly the frame. |
| `PeerRegistry.Announced` | main.go:37-40 | The HELLO message a connection acts on, if any. It sums up the handler's whole effect: on every registry, the handler binds that message's NodeID to its Addr, or changes nothing when there is no such message. |
| `PeerRegistry.Handle` | main.go:28-48 | One handled connection. A read error changes nothing. A non-HELLO type changes nothing. A HELLO maps the NodeID to the Addr, whether the key is new or old. The key set grows by that one key at most. Every other key keeps its value. No key is ever removed. |
| `PeerRegistry.EmptyIdIsStored` | main.go:40-42 | A HELLO with an empty NodeID is stored under the key `""`. |
| `PeerRegistry.SyntaxErrorLeavesRegistry` | main.go:37-40 | Assume a syntax error leaves the struct at its zero value. Then a record that is not JSON leaves the registry unchanged. |
| `PeerRegistry.DecodeErrorIgnored` | main.go:38 | The decoding error is discarded. Two decoders that leave the same struct have the same effect on the registry. |
| `PeerRegistry.Replay` | main.go:40-43 | Handlers run one after another, in lock order. No sequence of handled connections removes an entry from the registry. |
| `PeerRegistry.ReplayKeys` | main.go:40-43 | After a run, the keys are the initial keys plus every announced node id. From an empty registry, the keys are exactly the announced ids. |
| `PeerRegistry.LastWriteWins` | main.go:41-43 | If connection i is the last one to announce an id, the registry ends up mapping that id to connection i's address. |
| `PeerRegistry.UnannouncedUnchanged` | main.go:40-43 | An id that no connection announces keeps its entry and its value, or stays absent. |
| `PeerRegistry.Registry.constructor` | main.go:24 | The registry starts empty. |
| `PeerRegistry.Registry.HandleConnection` | main.go:28-48 | The map field afterwards is `Handle` of its old value (see `Handle`). |
| `PeerRegistry.Registry.Serve` | main.go:57-60 | Connections are handled one at a time, in lock order. Afterwards the map is `Replay` of the old map. The key set is the old keys plus every announced id. |
| `Node.CheckIdentity` | main.go:94-97 | Startup proceeds exactly when both the node id and the address are non-empty. Otherwise the process exits with status 1. |
| `Node.Announcement` | main.go:70-74 | The message carries this node's id and address. Any receiving handler that decodes it records that id, whatever error the decoder also reports. |
| `Node.AnnouncementBytes` | main.go:76-77 | The bytes written are the marshalled announcement followed by one `'\n'`. When the marshalled record holds no `'\n'`, they contain exactly one `'\n'`. |
| `Node.AnnouncementReadBack` | main.go:70-77 | The receiver's read stops at the announcement's trailing `'\n'`, whatever follows it on the stream. Given the codec hypothesis, decoding yields the HELLO with this node's id and address, with no error. |
| `Node.HandshakeRecordsSender` | main.go:70-77 | Take a sender that passed startup. Given the codec hypothesis, the receiving registry maps the sender's non-empty id to its address and keeps every other entry. From an empty registry, that id is the only entry. |
| `Node.Reachable` | main.go:101-105 | There are never more reached peers than configured entries, and all of them are reached when every dial succeeds. `ReachableSelects` below pins down which entries are reached. |
| `Node.Successes` | main.go:103-104 | The indices of the dials that succeeded, strictly increasing. Every index listed is a successful dial, and every successful dial is listed. |
| `Node.ReachableSelects` | main.go:103-104 | The reached peers are exactly the configured entries at the successful dials, in configured order. There is one peer per successful dial, so an address configured twice and dialed successfully twice appears twice. |
| `Node.ReachableMembers` | main.go:103-104 | An address is reached exactly when some dial of one of its entries succeeds. |
| `Node.RepeatedPeerDialedSeparately` | main.go:103-104 | Each entry is dialed separately. An address listed twice whose first dial fails and second succeeds is sent to once. |
| `Node.AnnounceToPeers` | main.go:101-105 | The dial loop sends one delivery per successful dial, in configured order. Delivery j goes to the entry at the j-th successful dial, and carries the framed announcement. |

## Left out

- TCP listen, accept, dial, read and write (main.go:31-32, 51-55, 58, 64-68, 77) are network I/O. A read is modelled only by its outcome. Each dial is modelled only by whether it succeeds.
- Failed Accept: `Registry.Serve` covers only runs in which every Accept succeeds. One failed Accept makes the Go process panic on the nil connection (main.go:29, 58-59), and the model has no notion of the process ending there.
- Blocking reads: `Wire.ReadString` reads a finite stream, so a peer that never sends `'\n'` and never closes gives `ReadError`. In the code, that handler blocks at main.go:32 forever, since no read deadline is set. Either way the registry is untouched.
- Go strings are byte strings; the model's `string` holds only Unicode scalar values. An `--id` or `--addr` that is not valid UTF-8 passes the check at main.go:94 but cannot be written in the model. `json.Marshal` (main.go:76) replaces its invalid bytes with U+FFFD, so the receiver records a different id. `CodecRoundTrips`, `Node.AnnouncementReadBack` and `Node.HandshakeRecordsSender` therefore describe Go only for valid UTF-8. The registry is unaffected, since keys decoded by `Unmarshal` are always valid UTF-8.
- Goroutines and `sync.Mutex` (main.go:25, 41-43, 59, 99) exist for concurrency. The model is sequential, and each handler runs atomically in lock order.
- `Registry.Serve` covers a finite prefix of the accept loop. The real loop never ends (main.go:57-60).
- `printPeers` and other console output (main.go:45-46, 55, 80-86, 95) are I/O. `printPeers` also iterates the map (main.go:82) without holding the lock. If that iteration overlaps another handler's write (main.go:42), the Go runtime can abort the whole process with "concurrent map iteration and map write", an error that cannot be recovered. So, like a failed Accept, this can end the node. The sequential model cannot show it, and it covers only runs in which that does not happen.
- The semantics of `encoding/json` Marshal and Unmarshal (main.go:38, 76) belong to a foreign library. They stay uninterpreted parameters, used only through the two hypotheses named above. The code discards the error from `json.Marshal`, and the model leaves it out.
- Flag parsing, the `*peerList != ""` guard with `strings.Split` (main.go:89-92, 101-102), `log.Fatal`, `os.Exit` and `select {}` (main.go:53, 96, 108) are library calls and process control. `AnnounceToPeers` takes the already-split list of peers.
- `conn.Close` (main.go:29, 68) and write errors (main.go:77) have no effect on state. The code ignores write errors.
