# A verified model of a Chord-style peer

This project models the ring-state and file-index core of a small Chord-style
distributed hash table (`src/peer/peer.go`, with the start-up lines of
`src/server/task2-peer.go`). Every peer has:

- an identifier, the 32-bit FNV-1a hash of its `ip:port` address;
- a successor and a predecessor;
- an index from file key (the hash of a file name) to file name;
- the files themselves in its working directory.

A lookup (`FindSuccessor`) answers with the peer itself, answers with its successor,
or forwards to its successor. A peer joins (`Connect`) by looking up its own id,
linking itself in front of the peer it finds, and receiving files from that peer.
A peer leaves (`Leave`) by handing every file it holds to its successor. Files
travel between peers as base64 text.

The modules follow the structure of the code:

- `Common`: byte strings, `uint32`, `Option` and `Result`.
- `Fnv`: the identifier hash and the peer id.
- `Base64`: the transport encoding, section 4 of RFC 4648. It follows the decoding
  rules of Go's `StdEncoding`: carriage returns and line feeds are skipped, padding
  only ends the text, and the unused low bits of the last symbol are not checked.
- `Ring`: peer references, a peer's view `(me, succ, pred)`, and the routing decision
  as a pure function. `Route` follows forwarding from peer to peer over a map from
  address to view. The module also defines what a consistent ring is and what a
  join does to it.
- `FileStore`: the index and the disk as maps, `ReadFile`/`WriteFile`, the
  `SetFile` calls of a migration loop, and their effect on the receiving peer.
- `Peer`: the class `PeerNode`, one running peer. Its methods are the RPC handlers
  `Get`, `Set`, `GetFile`, `SetFile`, `PopFile` and the local `Leave`. The loop that
  migrates files (`Handoff`) is a `while` loop over the key set. Each outbound
  `SetFile` call is recorded in the peer's `outbox`.
- `Network`: the peers of one deployment as a map from address to `PeerNode`.
  A remote call is a direct call on the addressed peer. `Connect` and `Depart`
  run the join and leave protocols across peers.

Two points where the code and its design description differ. The model follows the
code in both cases:

- **No wrap-around.** Identifiers are compared as plain unsigned integers, so no arc
  wraps past zero. On a consistent ring, keys between the smallest and the largest
  id are routed correctly (`Ring.RouteOnConsistentRing`). A key at or below the
  smallest id, or above the largest, is forwarded round the ring until the hop
  budget is gone (`Ring.WrappingKeysNeverResolve`).
- **Migration direction.** `Set("p", x)` hands the new predecessor `x` every key
  `k >= x.id` (`src/peer/peer.go:149`). After a join, lookups of keys in
  `(x.id, owner.id]` still answer the owner (`Ring.HandedKeysRouteToOwner`), yet
  those are the keys that moved to `x`. Keys in `(old pred.id, x.id]` are now looked
  up at `x` (`Ring.KeptKeysRouteToJoiner`). Of these the owner kept every key below
  `x.id`, that is `(old pred.id, x.id)`; only the key `x.id` itself moved to `x`.

As in the code, `Leave` does not tell either neighbour to re-link.

Every peer's id is the hash of its own address (`src/server/task2-peer.go:75`), and
peer references are only ever copied from one peer to another. So every reference
a peer holds has, as its id, the hash of the address it names (`Ring.WellAddressed`).
A join keeps this (`Ring.JoinedWellAddressed`, `Network.Connect`). It follows that a
peer whose successor has another id has its successor at another address, so a peer
never sends files to itself (`Network.SuccessorElsewhere`).

## Model

| member | source | states |
|---|---|---|
| Fnv.Hash | src/peer/peer.go:37-42 | the empty name hashes to the FNV-1a 32-bit offset basis; with `Fnv.HashSnoc` each further byte is one round and with `Fnv.HashVectors` the result matches the published vectors |
| Fnv.PeerId | src/server/task2-peer.go:75 | the peer id is the hash state after writing the ip, then `:`, then the port; that every reference's id is this hash of its address is kept by `Peer.PeerNode.constructor`, `Ring.RouteAddressed` and `Ring.JoinedWellAddressed` |
| Fnv.AbsorbAppend | src/peer/peer.go:37-42 | hashing a byte string in two writes gives the same state as hashing it in one |
| Fnv.HashSnoc | src/peer/peer.go:37-42 | one more byte is exactly one more FNV-1a round (xor, then multiply modulo 2^32) on the prefix's state |
| Fnv.HashVectors | src/peer/peer.go:37-42 | the hash agrees with the published FNV-1a 32-bit vectors for "", "a" and "foobar" |
| Ring.RouteAddressed | src/server/task2-peer.go:75 | when every reference's id is the hash of its address, so is the id of the peer a lookup finds |
| Ring.JoinedWellAddressed | src/server/task2-peer.go:75 | a join of a joiner whose id is the hash of its address keeps every reference's id the hash of its address |
| Base64.Encode | src/peer/peer.go:209 | the encoded text has 4 characters per started group of 3 bytes |
| Base64.EncodeAlphabet | src/peer/peer.go:209 | encoded text holds only alphabet characters and padding |
| Base64.Unwrap | src/peer/peer.go:194 | the text the decoder reads has no carriage return or line feed left and is no longer than the input; a single character is dropped exactly when it is a line break |
| Base64.UnwrapAppend | src/peer/peer.go:194 | line breaks are dropped from two pieces of text independently: unwrapping a concatenation is the concatenation of the unwrapped pieces |
| Base64.Decode | src/peer/peer.go:194 | text whose length without line breaks is not a multiple of 4, or that holds a character outside the alphabet, padding and line breaks, is a decode error |
| Base64.DecodeQuantaEncode | src/peer/peer.go:193-211 | decoding the quanta of an encoding gives back the original bytes |
| Base64.DecodeEncode | src/peer/peer.go:193-211 | `DecodeString(EncodeToString(b))` succeeds with `b`, for every byte string |
| Base64.DecodeRejectsPartialQuantum | src/peer/peer.go:194-198 | text whose length without line breaks is not a multiple of 4 is a decode error |
| Base64.DecodeRejectsInnerPadding | src/peer/peer.go:194-198 | padding before the final quantum is a decode error |
| Base64.DecodeRejectsForeign | src/peer/peer.go:194-198 | a character outside the alphabet, padding and line breaks is a decode error |
| Ring.Decide | src/peer/peer.go:105-123 | the peer answers itself exactly when it has a proper predecessor and `pred < id <= me`; it forwards exactly when it is not alone and the key is in neither `(pred, me]` nor `(me, succ]`; the error branch is unreachable |
| Ring.Route | src/peer/peer.go:105-123 | a lookup never ends in the "Couldn't find peer" error; a peer it finds has an id at least the key, unless a lone peer answered with its successor |
| Ring.DecideOnRing | src/peer/peer.go:106-119 | on a consistent ring and a key in the non-wrapping range, the owner answers itself, its predecessor answers with its successor, and every other peer forwards |
| Ring.RouteChain | src/peer/peer.go:116-119 | forwarding from a non-owner reaches the owner after as many hops as separate them |
| Ring.RouteOnConsistentRing | src/peer/peer.go:106-119 | on a consistent ring of two or more peers, a lookup of any key in `(smallest id, largest id]`, started at any peer with as many hops as there are peers, finds the peer with the smallest id at least the key |
| Ring.SingletonOwnsEverything | src/peer/peer.go:111-115 | a peer alone in its ring answers every key with itself |
| Ring.WrappingKeysNeverResolve | src/peer/peer.go:106-119 | on a consistent ring of two or more peers, a key at most the smallest id or above the largest is never found, whatever the hop budget |
| Ring.Joined | src/peer/peer.go:77-103 | after a join, the joiner points to the owner and the owner's old predecessor; the owner's predecessor and the old predecessor's successor are the joiner; every other view is unchanged |
| Ring.JoinKeepsRingConsistent | src/peer/peer.go:77-103 | joining a consistent ring in front of the owner of the joiner's id gives a consistent ring with the joiner inserted in id order |
| Ring.JoinOnRing | src/peer/peer.go:77-103 | the lookup a join starts from any member finds the owner of the joiner's id, and linking there keeps the ring consistent |
| Ring.JoinSingleton | src/peer/peer.go:77-103 | a lone peer and a joiner form a consistent ring of two |
| Ring.HandedKeysRouteToOwner | src/peer/peer.go:143-158 | after a join, keys in `(joiner id, owner id]`, which the owner hands to the joiner, are still looked up at the owner |
| Ring.KeptKeysRouteToJoiner | src/peer/peer.go:143-158 | after a join, keys in `(old pred id, joiner id]` are looked up at the joiner, although the owner keeps all of them but the joiner's own id |
| FileStore.IndexInsert | src/peer/peer.go:175 | indexing a name under its hash keeps every key the hash of its name |
| FileStore.ReadFile | src/peer/peer.go:205-212 | the file read carries the name asked for and text that decodes to exactly the bytes on disk under that name |
| FileStore.WriteFile | src/peer/peer.go:193-203 | text that does not decode leaves the disk unchanged; otherwise the name holds the decoded bytes; no other name is added, removed or changed |
| FileStore.WriteEncoded | src/peer/peer.go:193-203 | storing a file sent as the encoding of some bytes stores exactly those bytes under its name |
| FileStore.StoreThenRead | src/peer/peer.go:174-212 | a file stored from base64 text reads back with the same bytes and the same text |
| FileStore.StoreOverwrites | src/peer/peer.go:174-203 | storing one name twice leaves one entry holding the later content |
| FileStore.MigrationPartitions | src/peer/peer.go:148-149 | the predecessor test splits the index into disjoint kept (`k < bound`) and handed (`k >= bound`) parts that make up the index, each still consistent |
| FileStore.Transfers | src/peer/peer.go:148-158 | a migration issues one call per visited key |
| FileStore.TransfersAt | src/peer/peer.go:148-158 | the i-th call goes to the destination and carries the i-th visited key's file as read from disk |
| FileStore.TransfersIndex | src/peer/peer.go:148-158 | a receiver serving a migration's calls indexes exactly the migrated entries under their keys |
| FileStore.TransfersWrite | src/peer/peer.go:148-158 | a receiver serving a migration's calls stores every migrated file with the bytes the sender had |
| FileStore.MigrationDelivered | src/peer/peer.go:148-158 | a migration at a bound, served in order, adds exactly the entries at or above the bound to the receiver's index and their files to its disk |
| FileStore.WholeIndexDelivered | src/peer/peer.go:216-224 | a migration of the whole index adds all of it to the receiver's index and all its files to the receiver's disk |
| Peer.MigrateSkip | src/peer/peer.go:148-149 | a key below the bound is left in the index and on disk |
| Peer.MigrateMove | src/peer/peer.go:149-155 | a key at or above the bound is read from the disk as it was before the loop, sent, removed from disk and dropped from the index |
| Peer.DispatchOne | src/peer/peer.go:149-155 | sending a new key keeps every key sent exactly once |
| Peer.MigrateDone | src/peer/peer.go:148-158 | when every key is visited, the index holds exactly the keys below the bound, and exactly the handed files are gone from disk, each sent once |
| Peer.PeerNode.constructor | src/server/task2-peer.go:75-81 | a new peer's id is the hash of `ip:port`; it is its own successor and predecessor, with an empty index |
| Peer.PeerNode.Get | src/peer/peer.go:125-136 | "s" gives the successor, "p" the predecessor, any other selector no reply |
| Peer.PeerNode.Set | src/peer/peer.go:138-161 | "s" replaces only the successor; "p" replaces the predecessor, keeps the keys below its id, and sends each key at or above it exactly once to it; any other selector changes nothing |
| Peer.PeerNode.Handoff | src/peer/peer.go:148-158 | the migration loop leaves the keys below the bound, removes the others and their files, and appends one call per removed key to the outbox |
| Peer.PeerNode.GetFile | src/peer/peer.go:163-172 | fails with "File does not exist." exactly when the key is not indexed; otherwise returns the indexed name (whose hash is the key) and text that decodes to its bytes on disk |
| Peer.PeerNode.SetFile | src/peer/peer.go:174-178 | indexes the name under its hash, replacing only that entry, even when the text does not decode; writes the decoded bytes |
| Peer.PeerNode.PopFile | src/peer/peer.go:180-191 | fails with "File does not exist." exactly when the key is not indexed; otherwise drops exactly that entry and the file, and returns the file, or the removal error when it was not on disk |
| Peer.PeerNode.Leave | src/peer/peer.go:214-226 | a lone peer changes nothing; otherwise the index is emptied, its files are removed from disk and each entry is sent once to the successor; me, succ and pred never change |
| Network.RouteAvoids | src/peer/peer.go:105-123 | a lookup on a ring that does not know an address never answers a peer at that address |
| Network.Deliver | src/peer/peer.go:174-178 | serving calls in order leaves the index and disk that the calls' `SetFile` effects give |
| Network.Adopt | src/peer/peer.go:89-95 | after `Set("p", x)` at the owner, with its calls served by `x`, the owner keeps its keys below `x`'s id and `x` gains the rest with their files |
| Network.HandOver | src/peer/peer.go:214-226 | after a leave with its calls served by the successor, the leaving peer's index is empty and the successor holds all its entries and files |
| Network.Link | src/peer/peer.go:80-102 | the four join steps: the joiner's successor is the owner and its predecessor the owner's old predecessor, the owner's predecessor is the joiner and it hands over its keys at or above the joiner's id, and the old predecessor's successor is the joiner; the old predecessor's files and disk are untouched unless it is the owner, and no outbox but the owner's grows |
| Network.ViewsAfterLink | src/peer/peer.go:77-103 | the views of the network after the four join steps are those that `Joined` describes |
| Network.LinkInNet | src/peer/peer.go:77-103 | the join steps on the network: views change as `Joined` says, files move as `Adopt` says from the owner to the joiner only, the old predecessor's files, disk and outbox are untouched unless it is the owner, and every other peer is unchanged |
| Network.Connect | src/peer/peer.go:77-103 | the join succeeds exactly when the lookup of the joiner's id at the entry peer finds a peer whose address and whose predecessor's address are served; it fails with the lookup's outcome exactly when the lookup finds no peer, and otherwise with an address no peer serves; the joiner's successor is the peer found; on success, views change as `Joined` says, keys move as `Set("p", …)` says from the owner to the joiner, and the old predecessor's files, disk and outbox are untouched unless it is the owner; a failed lookup or an undialable peer aborts the join with no peer changed; a join keeps every reference's id the hash of its address |
| Network.JoinThroughRing | src/peer/peer.go:77-103 | a peer joining through any member of a consistent ring, with its id in the ring's non-wrapping range and enough hops, succeeds with the owner of its id as successor, and the ring stays consistent with the joiner inserted in id order |
| Network.SuccessorElsewhere | src/peer/peer.go:215 | when every reference's id is the hash of its address, a peer whose successor has another id does not find itself at its successor's address |
| Network.Drain | src/peer/peer.go:215-225 | a peer that is not alone empties its index and removes its files; the peer at its successor's address, another peer, gains exactly those entries and files; neither peer's me, succ or pred changes and no third peer changes |
| Network.Depart | src/peer/peer.go:214-226 | a lone peer or a peer with an empty index changes nothing and returns itself; a peer with files whose successor serves no address fails with nothing changed; otherwise its index is emptied and its files removed, and the peer returned, the one at its successor's address, gains exactly those entries and files; no peer's me, succ or pred changes, and no other peer changes |

## Left out

- Networking: dialling, `rpc.DialHTTP`, the HTTP RPC server and `GetOutboundIP` (`src/peer/peer.go:44-68`, `src/server/task2-peer.go:22-32`). A remote call is a direct call on the peer at that address. `GetOutboundIP` becomes the `ip` argument of the constructor.
- `GetSuccessor` (`src/peer/peer.go:70-75`) is the operator's lookup started at the successor. It is `Route` started at the successor's address and has no member of its own.
- `log.Fatal` on a failed dial, RPC or disk write: a process exit. A dial to an address no peer serves is `Unreachable` in `Route`, and a `DialFailed` error in `Connect` and `Depart`. A failing disk write is not modelled; every write succeeds.
- Network.Connect: every address the join needs is checked before any peer changes. In the source, a dial can fail between join steps and leave the ring half-linked; the model does not capture that partial state.
- Network.Connect: it requires that the joiner is not yet known to any peer (`Outsider`) and that the entry is another address. It does not model re-connecting a peer that already joined, or a peer restarted at an address its old neighbours still point to.
- Network.Depart: the departed peer stays in the network map and keeps answering lookups, `Get` and `Set`. In the source the operator's leave option returns from the menu loop right after `Leave` and the process exits (`src/server/task2-peer.go:62-65`), so later dials to that address fail. Its neighbours are not re-linked in either case.
- Network.Depart: the successor's address is dialled once, before any file moves. In the source each file dials it again inside the loop, and a failure part-way leaves some files moved.
- Outbound `SetFile` calls are recorded in `outbox` and served after the loop that issued them. In the source each call is served while the loop runs. The two agree because the receiver is never the sender: ids are hashes of addresses (`Network.SuccessorElsewhere`), and `Set("p", x)` only runs with `x` another peer.
- The disk is per peer. Several peers run from one working directory would share files; this is not modelled.
- Concurrency: RPCs served at the same time on unsynchronised globals, and nested RPCs during a join. The model is sequential.
- The use of `Me`, `Succ` and `Pred` as RPC reply targets (`src/peer/peer.go:81, 91, 98`): only the intended flow of values is modelled.
- Ring.Route: the source's recursion is unbounded. `hops` bounds it, so a lookup the source would forward forever ends in `HopsExhausted`.
- FileStore.Transfers: its own contract states only the number of calls. What the calls carry is stated by `FileStore.TransfersAt`, `FileStore.TransfersIndex` and `FileStore.TransfersWrite`.
- The order in which Go's `range` visits a map is left unspecified. The migration contracts hold for every order, which `Handoff` returns as a ghost value.
- The client program (`src/client/task2-client.go`), the operator menu of `src/server/task2-peer.go` apart from start-up, and the separate single-server file transfer under `part-1/`: I/O drivers without ring or index logic.
