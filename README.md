# hole-punching-go-libp2p: a Dafny model of the pairing relay and the chat node

The repository is a pair of libp2p programs. A relay server pairs nodes: each
node logs in, and once two nodes are registered the relay sends both of them a
listing of `<peer id>=<address>` lines and forgets them. A node that receives
such a listing picks the entry that is not its own, builds the relayed-circuit
address of its partner, opens a relayed chat stream to it and runs two line
loops (one showing what the partner sends, one sending what the user types).
The node also contains a variant, `NoHolePunchIfDirectConnExists`, that
connects to the partner and asks the hole-punching service for a direct
connection before it opens the chat. Its only call in `onGetPeers`
(node/node.go:168) is commented out, so the program never runs it; it is
modelled because it is the node's hole-punching sequence.

This project models that logic and proves what it promises:

- `Relay` (server/relay-server.go): the registry as a class `RelayServer`
  whose `peers` map `OnReq` updates in place. Go's unspecified map iteration
  order is any enumeration of the keys (`IsEnumeration`), chosen by `:|`. The
  registry is also described by the pure specification functions `Admit` and
  `Run`, with lemmas about them.
- `Pairing` (node/node.go `onGetPeers`): the decoding of the listing into a
  partner and a circuit address. The lemma `PairingRoundTrip` joins it to the
  relay's listing.
- `Chat` (node/node.go `readData`, `writeData`): both loops as methods, each
  tied to a specification function. The lemma `ChatRoundTrip` joins the
  writer's bytes to the reader.
- `Session` (node/node.go): `Login`, `CmdRelay`, `StartSendP2PMsg` and
  `NoHolePunchIfDirectConnExists` each return the trace of network effects they
  cause. A class `Node` holds the field `onGetPeers` reassigns.
- `Protocol` (common/proto.go): the six tags and the node's dispatch table.
- `Streams`: the effect trace, and `sendMessage`. It is the same code in both
  programs.
- `Text`: Go's `strings.Split` and `strings.Join` on a one-character separator.
- `Wrappers`: `Option`.

Every outcome the network decides enters as a parameter:

- on the node, whether a stream opens, a connection or a hole punch succeeds,
  and whether `peer.Decode` or `multiaddr.NewMultiaddr` accepts its input, each
  as a boolean;
- on the relay, the set `opens` of the peers a response stream can be opened to;
- the payload `onGetPeers` reads, as an `Option<string>` that is None when
  `ioutil.ReadAll` fails.

Three behaviours of the code worth knowing:

- A second login under the same identifier overwrites the first (line 40 of
  server/relay-server.go). It is not rejected.
- There is no session-phase state. `OnReq` flushes whenever the map reaches
  two entries.
- The two programs do not agree on their tags, and `Relay.TagsDoNotLineUp`
  states this. The node logs in under `/relay/getpeer/1.0.0`, where the relay
  has no handler. The relay answers under `/relay/relayrsp/1.0.0`, where the
  node has no handler. So the registry and the decoder are joined only through
  the listing format (`Pairing.PairingRoundTrip`), not through the tags.

## Model

| member | source | states |
|---|---|---|
| Protocol.TagsVersioned | common/proto.go:3-11 | every one of the six tags starts with `/`, and its last six characters are `/` followed by the version `1.0.0` |
| Protocol.TagsDistinct | common/proto.go:5-10 | the six tags are pairwise distinct |
| Protocol.NodeTable | node/node.go:84-87 | the node's handler table has exactly four entries, keyed by the four registered tags, and different tags reach different handlers: no registration displaces another |
| Protocol.NodeDispatch | node/node.go:84-87 | each of `/chat/getpeer`, `/chat/first/p2p/msg`, `/chat/start/p2p/msg` and `/relay/relaymsg` reaches its own handler; two tags reaching the same handler are equal |
| Protocol.RegisteredTagsOnly | node/node.go:84-87 | a tag reaches a node handler exactly when it is one of `/chat/getpeer/1.0.0`, `/chat/first/p2p/msg/1.0.0`, `/chat/start/p2p/msg/1.0.0` and `/relay/relaymsg/1.0.0` |
| Protocol.UnhandledTags | common/proto.go:5-7 | the login tag `/relay/getpeer/1.0.0`, `/relay/sendpeers/1.0.0` and a tag outside the set reach no node handler |
| Streams.SendMessage | server/relay-server.go:83-94 | reports success exactly when the stream opens; the data is written and the stream closed exactly then, the close after the write; no dial, punch or chat happens |
| Text.Split | node/node.go:130-133 | Go's `strings.Split`: one more piece than separators, no piece contains the separator, and joining the pieces gives back the input |
| Text.SplitJoin | node/node.go:130-133 | splitting the join of at least one separator-free piece gives the pieces back |
| Text.SplitPair | node/node.go:133 | `left=right`, with no `=` on either side, splits into exactly `[left, right]` |
| Relay.ListingLines | server/relay-server.go:51-54 | for any iteration order, the listing splits on newlines into one `<id>=<addr>` record per registered peer and a final empty piece; each record splits on `=` into exactly that peer's identifier and address, so every peer is listed exactly once |
| Relay.BuildListing | server/relay-server.go:51-54 | the first loop of `onReq` visits every key exactly once, in some order, and the string it accumulates is the listing in that order |
| Relay.RelayServer.OnReq | server/relay-server.go:36-60 | the new registry is `Admit` of the old one; when the insertion does not bring the map to two entries, nothing is sent; when it does, every registered peer is sent exactly once, always the same listing built from the two entries, under `/relay/relayrsp/1.0.0`; the registry holds at most one entry on exit |
| Relay.RelayServer.Flush | server/relay-server.go:55-59 | the second loop sends to every entry exactly once and empties the registry, whatever each send reports |
| Relay.RelayServer.constructor | server/relay-server.go:78 | a relay starts with an empty registry |
| Relay.AdmitKeepsAtMostOne | server/relay-server.go:37-58 | from at most one entry, one login leaves at most one entry |
| Relay.CompletesIffSecondPeer | server/relay-server.go:47-49 | a login flushes exactly when one other peer is waiting |
| Relay.ReRegisterOverwrites | server/relay-server.go:39-40 | a second login by the waiting peer does not flush, overwrites its address, and leaves the size unchanged |
| Relay.WaitingEntryStays | server/relay-server.go:40-49 | without a flush the new entry is kept and no other entry changes |
| Relay.RunKeepsAtMostOne | server/relay-server.go:37-58 | over any sequence of logins, the registry never holds more than one entry between calls |
| Relay.RunDistinctPairs | server/relay-server.go:47-58 | logins by pairwise distinct newcomers flush once per two peers, and an odd peer out is left waiting |
| Relay.TagsDoNotLineUp | server/relay-server.go:21-31 | the node's login tag has no relay handler, and the relay's response tag has no node handler (node/node.go:84-87,230) |
| Pairing.ForeignIndex | node/node.go:132-137 | the index of the first record whose identifier differs from the node's own, or the number of records when there is none |
| Pairing.FirstForeign | node/node.go:131-137 | nothing is selected exactly when every record is the node's own; a selected record never has the node's own identifier first |
| Pairing.SelectPartnerRecord | node/node.go:131-138 | the loop with its early `break` selects exactly `FirstForeign` |
| Pairing.CircuitAddr | node/node.go:155 | the circuit address starts with the partner's address, ends with the partner's identifier, and has `/p2p/<relay>/p2p-circuit/p2p/` between them |
| Pairing.DecodePairing | node/node.go:130-155 | the node never pairs with itself; the circuit is a circuit address to the partner; a payload whose records are all the node's own yields nothing |
| Pairing.PairingRoundTrip | node/node.go:130-155 | each of the two peers of a two-entry listing, in either order, with no newline or `=` in identifiers or addresses, decodes the other peer and the circuit through that peer's registered address (server/relay-server.go:51-54) |
| Pairing.OwnRecordOnly | node/node.go:141-143 | a listing of only the node's own record yields nothing; its only other piece is the empty one after the last newline, which has a single field |
| Chat.NextLine | node/node.go:94 | one `ReadString('\n')`: the text read and the rest make up the stream; the text is a complete line, or the newline-free end of the stream; it is empty only at the end |
| Chat.Reads | node/node.go:93-98 | the successive reads up to the first empty one are all non-empty and make up the whole stream |
| Chat.ReadData | node/node.go:92-105 | the loop shows exactly `Forwarded(Reads(stream))`: every read but the bare newlines, in order, stopping at the first empty read |
| Chat.ForwardedMembers | node/node.go:99 | a line is shown exactly when it was read and is not a bare newline |
| Chat.ForwardedIdempotent | node/node.go:99 | filtering what was shown removes nothing more |
| Chat.Accepted | node/node.go:111-115 | the lines the writer sends are the terminal reads before the first failed read, in order |
| Chat.WriteData | node/node.go:107-120 | for each line `Accepted` yields, in order, one write of that line followed by an extra newline, then one flush; nothing is written at or after the first failed read; the bytes put on the stream are `Typed(Accepted(stdin))` |
| Chat.ChatRoundTrip | node/node.go:92-120 | a reader reading what the writer wrote for complete terminal lines shows exactly those lines that are not empty, in order; the extra newline is read as a bare newline and dropped |
| Session.Login | node/node.go:229-235 | the login is one `sendMessage` of `login` to the relay under `/relay/getpeer/1.0.0`, written exactly when the stream opens |
| Session.CmdRelay | node/node.go:334-351 | opens a chat stream under `/relay/relaymsg/1.0.0` and stops if that fails; otherwise sends the relay greeting on a second stream, opened right after the chat stream, written only if that stream opens; when it opens, the greeting is written and that stream closed before the chat starts; the chat starts exactly when the first stream opens; never punches |
| Session.StartSendP2PMsg | node/node.go:250-268 | opens a stream under `/chat/start/p2p/msg/1.0.0`; if that fails nothing else happens; otherwise the greeting is written before the chat starts; no dial or punch |
| Session.NoHolePunchIfDirectConnExists | node/node.go:271-294 | connects first; if that fails stops before any punch; otherwise punches exactly once; opens the chat stream exactly when the punch succeeds, and starts the chat exactly when that stream opens too |
| Session.PrefixJoinsFirstLine | node/node.go:264-267 | a newline-free text written just before the chat bytes becomes part of the partner's first read |
| Session.GreetingJoinsFirstLine | node/node.go:264 | the greeting `Hello this is  msg` has no newline, so the partner reads it joined to the first chat line |
| Session.Node.constructor | node/node.go:77 | a node starts with no chat target |
| Session.Node.OnGetPeers | node/node.go:123-172 | if the read fails, or the decoder selects nothing or a record with at most one field, or the identifier or the circuit address does not parse, the target is unchanged and nothing is sent; otherwise the target becomes the decoded partner and circuit, and `CmdRelay` runs to that partner; the node never targets itself |

## Left out

- Host and service construction (`NewNode`, `makeRelayHost`, `AddHolePunchService`) and the command-line programs (chat.go, the relay's `main`). They are library setup and flag parsing.
- `GetPeerInfoByDest` and `ConnectRelay`. Their multiaddress parsing and `Decapsulate` belong to a library that is not part of this model. The relay's identifier is a field of `Session.Node` instead.
- The internals of `DirectConnect`, `Connect` and `NewStream`. Each is an ok/error parameter.
- The mutex and the goroutines. `OnReq` is atomic, and the two chat loops are separate sequential methods over given input. Interleaving is not modelled.
- The channels `FirstP2PMsg` and `StartP2PMsg`, `onFirstP2PMsg`, `onRsp`, and the `time.Sleep` calls. They have no behaviour beyond timing, and nothing reads the channels.
- `onP2PMsg` and `onRelayMsg`, the inbound handlers behind `HandleP2PMsg` and `HandleRelayMsg`: each only starts the two chat loops on the accepted stream, and those loops are `Chat.ReadData` and `Chat.WriteData`.
- `DirectDialWorks` and `EndToEndSimConnect`. Nothing calls `DirectDialWorks`, and the call of `EndToEndSimConnect` in `onGetPeers` (node/node.go:169) is commented out.
- `ConnsToPeer` in `NoHolePunchIfDirectConnExists`. Its result is unused.
- Logging, ANSI colouring and the `> ` prompts of the chat loops.
- Byte-level framing of `ioutil.ReadAll` and of the stream writes. A stream's content is a `string`.
- Session.Node.OnGetPeers: `peer.Decode` is a verdict parameter. The partner's identifier is the selected record's text, which assumes that decoding and printing an identifier gives the same text back.
- Session.CmdRelay: effects name a peer and a tag, not a stream, so the two streams under `/relay/relaymsg/1.0.0` are told apart only by their order: the second `Open` comes right after the first.
- Streams.SendMessage: the relay's and the node's `sendMessage` (server/relay-server.go:83-94, node/node.go:237-248) are the same code, so one function models both.
- Relay.RelayServer.OnReq: the ok flag of each send is the outcome of opening a stream to that peer; the relay ignores it, as the code does.
