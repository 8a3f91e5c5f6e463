# CSC340 membership protocol, modelled in Dafny

The repository is a small UDP membership and file-listing protocol in Java,
in three variants:

- **Coordinator and clients** (Server/UDPServer2.java, its older copy
  UDPServer2.java, Client/UDPClient2.java, UDPClient2.java).
  - Every client periodically sends the coordinator a `Packet` with its
    comma-joined file list.
  - The coordinator marks a client "Online" when the payload is non-empty
    and "Offline" otherwise. Its timeout checker demotes ids 1..5 that have
    been silent for more than 30 seconds.
  - The coordinator broadcasts a snapshot `List<Packet>` whose payloads read
    `status|file,file,…`. Clients decode it with `split("\\|", 2)`.
- **Peer to peer** (Peer/UDPPeer.java).
  - Every peer sends its files straight to every other id 1..n.
  - A received packet marks its sender "Online".
  - A heartbeat resets every other id to "Offline" every 30 seconds.
- **Ping/ack** (UDPPeerMod.java).
  - A peer listens on port 9876, marks the first configured node whose
    address matches a sender as active, and answers "ACK from 9876".
  - It stops on "THEEND".
  - It pings every configured node with "PING from <port>".

Both node directories are modelled: Client/ConfigLoader.java (`id ip port
status [files]`) and the older ConfigLoader.java (`id ip port`). So are the
three `Packet` records.

How the Java code is represented:

- State that the Java code updates in place is a Dafny `class`:
  - the directory's node map;
  - the coordinator's `lastReceivedTime`;
  - the ping peer's `activeNodes` and its reused 1024-byte receive buffer,
    an `array<char>`.
- Each loop body is a `method`. It is proved against a specification
  function, and the function's properties are proved as lemmas.
- Pure computations are functions:
  - the Java `String`/`Integer` operations, with their edge cases written
    out (`trim`, `split` with and without a limit, `String.join`,
    `parseInt`, `toString`);
  - packet construction and decoding;
  - snapshots and send rounds.
- `round_trips.dfy` ties the variants together:
  - an announcement applied by the coordinator;
  - the snapshot built from the updated directory;
  - the client's decoding of that snapshot;
  - the peer's update compared with the coordinator's.

Clocks, random draws, the iteration order of a `HashMap` and which network
operations fail are parameters. Datagrams arrive already deserialised, as a
`Received` value: either undecodable, or an object that is a `Packet`, a
list, or something else.

## Model

| member | source | states |
|---|---|---|
| JavaText.Trim | Client/ConfigLoader.java:73 | The trimmed line is no longer than the input and neither starts nor ends with a character ≤ U+0020. It is empty exactly when the line holds nothing else. |
| JavaText.TrimUnique | ConfigLoader.java:38 | Trimming `x + r + y` with blank `x`, `y` and `r` free of blank ends gives exactly `r`, so `trim`'s result is determined by those properties. |
| JavaText.TrimPadded | UDPPeerMod.java:39 | Blank padding after a text (the NUL bytes of an unused buffer) does not change what `trim` returns. |
| JavaText.TrimReaches | UDPPeerMod.java:39 | If the first character and the one at `p` are kept by `trim`, the trimmed text is longer than `p`. |
| JavaText.SpacePieces | Client/ConfigLoader.java:76 | `\s+` splitting yields at least one piece and at most the limit. Every piece but the last is free of `\s`, and so is the last when the limit was not reached. |
| JavaText.SpacePiecesNonEmpty | Client/ConfigLoader.java:76 | On a trimmed line no piece of a `\s+` split is empty. |
| JavaText.DropTrailingEmpty | ConfigLoader.java:44 | The limit-0 clean-up keeps a prefix that does not end in "" and drops only empty strings. |
| JavaText.SplitSpaces | Client/ConfigLoader.java:76 | `split("\\s+", n)` returns a text without `\s` whole. A positive limit gives 1..limit pieces. Every piece but the last is free of `\s`, and so is the last when the limit was not reached. With limit 0 and a `\s` in the text, the last piece is never "". |
| JavaText.SplitSpacesJoin | ConfigLoader.java:44 | Splitting words joined by single spaces gives the words back, when they are non-empty, do not start with `\s`, and only a last word left unsplit by the limit holds `\s`. |
| JavaText.Split | Client/ConfigLoader.java:87 | `split(",")` of a text without ',' is that text alone, even when it is empty. No piece holds ','. With a ',' the last piece is non-empty. |
| JavaText.SplitJoin | Server/UDPServer2.java:73 | Splitting a join gives the parts back when they are non-empty, comma-free and not ending in "" (unless there is only one part). |
| JavaText.SplitJoinExactly | Server/UDPServer2.java:73 | Splitting a join gives the list back if and only if the list is `Splittable`. |
| JavaText.SplitJoinEmpty | Server/UDPServer2.java:73 | The empty file list is joined to "" and comes back as `[""]`. |
| JavaText.SplitLoneSeparator | Client/ConfigLoader.java:87 | A payload of just "," splits to the empty list. |
| JavaText.SplitJoinSplit | Client/ConfigLoader.java:87 | A non-empty split result survives being joined and split again. |
| JavaText.JoinEmpty | Client/UDPClient2.java:102 | A join is empty exactly for `[]` and `[""]`. |
| JavaText.SplitFirst | Client/UDPClient2.java:141 | Splitting on the bar with limit 2 gives `[s]` exactly when there is no bar. Otherwise it gives two parts, the first free of bars, that rebuild `s` around the bar. |
| JavaText.SplitFirstJoined | Client/UDPClient2.java:141 | Cutting `a`, a bar, then `b`, with a bar-free `a`, gives `[a, b]`, with `b` possibly empty. |
| JavaText.Join | Server/UDPServer2.java:129 | `String.join` of one part is that part. The join starts with the first part and, with two or more parts, the separator follows it. `SplitJoinExactly` states when `split` inverts it. |
| JavaText.ParseInt | Client/ConfigLoader.java:83 | An accepted number is a signed run of ASCII digits within the 32-bit range. Empty text and a lone sign are rejected. |
| JavaText.IntToString | UDPPeerMod.java:61 | `toString` is non-empty and starts with '-' exactly for negative numbers. Every other character is an ASCII digit. |
| JavaText.ParseIntOfIntToString | UDPPeerMod.java:95 | `parseInt` reads back what `toString` writes, for every 32-bit int. |
| Packets.Packet.WithVersion | Server/Packet.java:71-73 | `setVersion` sets the version and keeps the other three fields. |
| Packets.Packet.WithNodeId | Server/Packet.java:80-82 | `setNodeId` sets the id and keeps the other three fields. |
| Packets.Packet.WithDataLength | Server/Packet.java:89-91 | `setDataLength` sets the length without checking it against the data. |
| Packets.Packet.WithData | Peer/Packet.java:65-67 | `setData` sets the data and leaves `dataLength` stale. |
| Packets.PacketLengthUnchecked | Server/Packet.java:23-28 | The constructor accepts a length that differs from the data's, and `setData` leaves the old length in place. |
| Packets.PacketSettersIndependent | Peer/Packet.java:50-67 | Setters on different fields commute, and a second setter on the same field wins. |
| Packets.LegacyPacket.WithVersion | Packet.java:48-50 | `setVersion` of the older record sets the version and keeps the rest. |
| Packets.LegacyPacket.WithNodeId | Packet.java:53-55 | `setNodeId` sets the id and keeps the rest. |
| Packets.LegacyPacket.WithOnOff | Packet.java:58-60 | `setOn_off` sets the flag and keeps the rest. |
| Packets.LegacyPacket.WithData | Packet.java:63-65 | `setData` sets the data and keeps the rest. |
| Packets.PacketList | Server/UDPServer2.java:136 | The serialised list holds one `Packet` object per packet, in order. |
| ConfigLines.LoadAppend | Client/ConfigLoader.java:72-93 | Loading two blocks of lines is loading the second on top of the first. |
| ConfigLines.LoadSkipsNonEntry | Client/ConfigLoader.java:74-80 | A skipped or malformed line contributes nothing, and the lines after it are still handled. |
| ConfigLines.LoadLastWins | Client/ConfigLoader.java:89 | The last line naming an id decides that id's entry. |
| ConfigLines.LoadKeys | ConfigLoader.java:55 | An id is loaded exactly when it was present before or some line yields an entry for it. |
| ConfigLines.LoadUntouched | ConfigLoader.java:37-60 | An id that no line names keeps its starting entry. |
| ConfigLines.Load | Client/ConfigLoader.java:72-93 | The loop's map after a list of lines: each line is parsed on its own and an entry is `put`. It never loses a starting key, and no lines leave the map as it was. |
| Directory.ParseLine | Client/ConfigLoader.java:73-89 | A line is ignored exactly when it is blank or a comment after `trim`. An accepted id and port are 32-bit ints. The round-trip and rejection lemmas below state the field mapping. |
| Directory.ParseLineTokens | Client/ConfigLoader.java:76-86 | An accepted line's ip and status are single non-empty words, never glued to a neighbour by the limit of 5. |
| Directory.ParseWords | Client/ConfigLoader.java:76-89 | Four or five words one space apart, the first and third parsing as ints, give id, ip, port and status in that order, and files from the fifth word split on ',' or `[]` without one. |
| Directory.ParseFiveWords | Client/ConfigLoader.java:76-89 | A five-word line gives id, ip, port and status from the first four words, and the files from the fifth split on ','. |
| Directory.ParseFourWords | Client/ConfigLoader.java:76-89 | A four-word line gives id, ip, port and status, with an empty file list. |
| Directory.ParseLineRoundTrip | Client/ConfigLoader.java:76-89 | The line `id ip port status files` is accepted as that id with that ip, port and status, and the files text (which may hold spaces) split on ','. |
| Directory.ParseLineRoundTripNoFiles | Client/ConfigLoader.java:76-89 | The line `id ip port status` is accepted with those fields and an empty file list. |
| Directory.ParseLineRejects | Client/ConfigLoader.java:73-92 | A line is rejected exactly when it is not blank or a comment and has fewer than four words, or its first or third word is not an int. |
| Directory.ThreeWordLineRejected | Client/ConfigLoader.java:77-80 | A line in the older `id ip port` format has too few words and is rejected. |
| Directory.WithStatus | Client/ConfigLoader.java:114-121 | `setNodeStatus` replaces one known node's status and nothing else. An unknown id changes nothing. |
| Directory.WithFiles | Client/ConfigLoader.java:129-137 | `setNodeFiles` replaces one known node's files and nothing else. An unknown id changes nothing. |
| Directory.SettersKeepKeys | Client/ConfigLoader.java:114-137 | The setters never add or remove a node, so the directory's size is fixed after loading. |
| Directory.ConfigLoader.constructor | Client/ConfigLoader.java:62-64 | The constructor leaves the directory that the lines of nodes.config load into an empty map. |
| Directory.ConfigLoader.LoadConfig | Client/ConfigLoader.java:69-97 | The loop's map is the line-by-line `Load` of the lines. |
| Directory.ConfigLoader.SetNodeStatus | Client/ConfigLoader.java:114-121 | The node map becomes `WithStatus` of the old map. |
| Directory.ConfigLoader.SetNodeFiles | Client/ConfigLoader.java:129-137 | The node map becomes `WithFiles` of the old map. |
| Directory.ConfigLoader.GetNodes | Client/ConfigLoader.java:104-106 | `getNodes` returns the current node map. |
| LegacyDirectory.ParseLine | ConfigLoader.java:37-59 | A line is ignored exactly when it is blank or a comment. An accepted id and port are 32-bit ints. |
| LegacyDirectory.ParseLineThreeWords | ConfigLoader.java:44-52 | An accepted line is exactly three non-empty words. The ip is the middle word and the id and port are the ints the other two spell. |
| LegacyDirectory.ParseLineRoundTrip | ConfigLoader.java:44-52 | The line `id ip port` is accepted as that id with that ip and port. |
| LegacyDirectory.FourWordLineRejected | ConfigLoader.java:44-47 | A line of the newer format, with a status after the port, is not exactly three words and is dropped. |
| LegacyDirectory.ConfigLoader.constructor | ConfigLoader.java:24-26 | The constructor loads the older directory from the lines. |
| LegacyDirectory.ConfigLoader.LoadConfig | ConfigLoader.java:33-65 | The loop's map is the line-by-line `Load` of the lines. |
| LegacyDirectory.ConfigLoader.GetNodes | ConfigLoader.java:70-72 | `getNodes` returns the current node map. |
| Timing.NextInt | Peer/UDPPeer.java:118 | `nextInt(origin, bound)` lies in `[origin, bound)`. |
| Timing.AnnounceDelay | Server/UDPServer2.java:154 | The broadcast delay (and the client's send delay) lies in 1..30 seconds. |
| Timing.PeerRoundDelay | Peer/UDPPeer.java:156 | The peer's delay between rounds lies in 0..30 seconds. |
| Timing.FirstPingDelay | UDPPeerMod.java:73 | The first ping delay lies in 5..9 seconds. |
| Timing.PingDelay | UDPPeerMod.java:82 | Every later ping delay lies in 5..30 seconds. |
| Coordinator.Apply | Server/UDPServer2.java:65-74 | The sender's files become the ','-split payload. Its status is "Online" exactly when `dataLength > 0` and "Offline" otherwise. Its address and every other node are unchanged, and an unknown sender changes nothing. |
| Coordinator.ApplyEmptyPayload | Server/UDPServer2.java:70-73 | An empty announcement marks the sender "Offline" with the single file name "". |
| Coordinator.TimeoutNeverPromotes | Server/UDPServer2.java:94-107 | The timeout pass only demotes. Visited expired ids become "Offline" and every other node is untouched. No address or files change. |
| Coordinator.TimedOutStep | Server/UDPServer2.java:95-106 | Visiting one more id is one `setNodeStatus(id, "Offline")` exactly when that id expired. |
| Coordinator.TimeoutBoundary | Server/UDPServer2.java:104 | Silence of 30001 ms demotes a node. Silence of exactly 30000 ms does not, and neither does a fresh packet. Id 6 is never checked. |
| Coordinator.TimedOut | Server/UDPServer2.java:93-107 | The directory after the timeout checker visits ids 1..upTo keeps its key set. `TimeoutNeverPromotes` states what changes. |
| Coordinator.EntryPacket | Server/UDPServer2.java:129-131 | A snapshot entry has version 1, the node's id and a length equal to its payload. The payload is the status, then a bar, then the files joined with ','. |
| Coordinator.Snapshot | Server/UDPServer2.java:124-133 | The snapshot over ids 1..upTo holds at most one packet per id. `SnapshotContents` states which. |
| Coordinator.SnapshotEntries | Server/UDPServer2.java:124-133 | Every snapshot packet belongs to a present id in 1..upTo and carries that id's entry packet. The ids ascend. |
| Coordinator.SnapshotListsPresent | Server/UDPServer2.java:124-133 | Every present id in 1..upTo appears in the snapshot. |
| Coordinator.SnapshotContents | Server/UDPServer2.java:124-133 | The snapshot lists exactly the present ids in 1..upTo, once each, ascending, each with its entry packet. |
| Coordinator.ServerSnapshotListsSix | Server/UDPServer2.java:124 | The newer coordinator's snapshot includes node 6 whenever node 6 is configured. |
| Coordinator.RootSnapshotOmitsSix | UDPServer2.java:116 | The older coordinator's snapshot never lists node 6 and lists exactly the present ids 1..5. |
| Coordinator.DeliveriesIndependent | Server/UDPServer2.java:139-151 | A present id in 1..5 is sent the snapshot exactly when its own send does not fail, at its configured address. |
| Coordinator.DeliveriesAddressed | Server/UDPServer2.java:139-151 | Every delivery goes to a present id in 1..upTo at the address the directory holds for it. |
| Coordinator.DeliveriesReachAll | Server/UDPServer2.java:139-151 | Every present id in 1..upTo whose send does not fail is reached. |
| Coordinator.Deliveries | Server/UDPServer2.java:139-151 | A broadcast round reaches at most one destination per id and never one whose send fails. `DeliveriesIndependent` states which. |
| Coordinator.Server.constructor | Server/UDPServer2.java:20-28 | The constructor loads the directory; no node has been heard from yet. |
| Coordinator.Server.Listen | Server/UDPServer2.java:57-86 | A `Packet` is applied and its sender's time stamped. Any other object changes nothing. An undecodable datagram ends the listener. |
| Coordinator.Server.CheckTimeouts | Server/UDPServer2.java:93-107 | One pass of the timeout checker leaves exactly `TimedOut` of the old directory over ids 1..5. |
| Coordinator.Server.BuildSnapshot | Server/UDPServer2.java:120-133 | The built list is `Snapshot` of the live directory up to the variant's maximum id. |
| Coordinator.Server.Broadcast | Server/UDPServer2.java:120-156 | The snapshot is sent to `Deliveries` over ids 1..5, and the next delay is the 1..30-second draw. |
| Client.Announcement | Client/UDPClient2.java:102-103 | An announcement has version 1, the own id, the file names joined with ',' as its payload, and a length equal to that payload. The payload is non-empty exactly when there is a file name other than a lone "". `RoundTrips.AnnouncementApplied` says which lists the coordinator gets back. |
| Client.DecodeEntry | Client/UDPClient2.java:140-143 | With a bar, status and files are the text around the first bar. Without one they are "Unknown" and "No files". |
| Client.DecodeEntryRoundTrip | Client/UDPClient2.java:141-143 | Decoding a status, a bar and a files text gives back that status and those files for any bar-free status. |
| Client.TrailingBarKeepsEmptyFiles | UDPClient2.java:105-107 | A payload that is "Offline" followed by one bar decodes to files "", not "No files". |
| Client.DecodeItems | Client/UDPClient2.java:137-145 | The for-each loop over a list whose head is a `Packet` either shows every element or stops at a failed cast. The three lemmas below state which and with what entries. |
| Client.DecodeItemsShown | Client/UDPClient2.java:137-139 | The receive loop shows the whole list exactly when every element is a `Packet`. |
| Client.DecodeItemsEntries | Client/UDPClient2.java:139-145 | When it shows the whole list, entry `i` decodes element `i`. |
| Client.DecodeItemsStopped | Client/UDPClient2.java:137-145 | When it stops, it has shown the entries before the first non-`Packet` element and nothing after. |
| Client.Receive | Client/UDPClient2.java:131-151 | An undecodable datagram ends the receiver. A non-List is reported. An empty list, or one whose head is not a `Packet`, is reported without decoding. |
| Client.ReceivePackets | Client/UDPClient2.java:133-145 | A non-empty `List<Packet>` is shown in full, one decoded entry per packet, in order. |
| Client.ReceiveStops | UDPClient2.java:96-110 | A list whose head is a `Packet` but which holds another object ends the receiver after the packets before that object. |
| Client.ClientSetup | Client/UDPClient2.java:31-43 | Construction succeeds exactly when both the own id and node 6 are configured. It binds the own port and sends to node 6's ip. |
| Client.LegacyClientSetup | UDPClient2.java:147-153 | The older client starts exactly when its own id is configured. It binds that port and sends to the hard-coded 192.168.56.1. |
| Peer.PeerApply | Peer/UDPPeer.java:107-108 | A received packet marks its sender "Online" whatever the payload and stores the split payload as its files. Nothing else changes. |
| Peer.HeartbeatStatuses | Peer/UDPPeer.java:166-172 | A reset makes the own id "Online" and every other id in 1..size "Offline". Only statuses change, and ids outside 1..size are untouched. |
| Peer.HeartbeatStep | Peer/UDPPeer.java:167-171 | Visiting one more id is one `setNodeStatus`. |
| Peer.HeartbeatContiguous | Peer/UDPPeer.java:166-172 | With ids exactly 1..n, a reset leaves only the own node "Online". |
| Peer.Heartbeat | Peer/UDPPeer.java:166-172 | A heartbeat reset keeps the key set. `HeartbeatStatuses` states the new statuses. |
| Peer.PeerAnnouncement | Peer/UDPPeer.java:131-136 | A peer's packet has version 0, the own id, the file names joined with ',' as its payload, and a length equal to that payload. The payload is empty exactly for no files or a lone "". |
| Peer.PeerAnnouncementApplied | Peer/UDPPeer.java:107-108 | A peer receiving another peer's announcement marks it "Online" and stores exactly the announced list if and only if the list is `Splittable`. It stores `[""]` for no files. |
| Peer.PeerRound | Peer/UDPPeer.java:126-155 | A round from id `from` to `n` sends at most once per id in range. `PeerRoundSends` states where it aborts or crashes. |
| Peer.PeerRoundSends | Peer/UDPPeer.java:126-155 | Sends go, in ascending order, to present, non-failing ids other than the own id, at their address and with the own files. An early stop happens above every id sent to, at a failing id (abort) or an absent one (crash). |
| Peer.PeerRoundFinished | Peer/UDPPeer.java:128-145 | A round that finishes has sent to every id in range but the own one. |
| Peer.RoundReachesEveryPeer | Peer/UDPPeer.java:128-145 | With ids exactly 1..n and no failures, a round finishes and reaches exactly the other peers. |
| Peer.Peer.constructor | Peer/UDPPeer.java:28-48 | The peer keeps its id and loads its own copy of the directory. |
| Peer.Peer.OnPacket | Peer/UDPPeer.java:93-110 | A `Packet` is applied with `PeerApply`. Anything else (a failed cast or deserialisation) ends the listener with nothing changed. |
| Peer.Peer.HeartbeatReset | Peer/UDPPeer.java:166-172 | The reset loop leaves exactly `Heartbeat` of the old directory. |
| Peer.Peer.HeartbeatReport | Peer/UDPPeer.java:174-176 | The report lists the status of ids 1..size in order. It fails exactly when one of those ids is absent. |
| Peer.Peer.SendRound | Peer/UDPPeer.java:126-155 | The loop's sends and ending are exactly `PeerRound` over ids 1..size. |
| PeerMod.Overlay | UDPPeerMod.java:30-36 | Receiving puts the datagram, cut to 1024 bytes, over the old buffer contents. Later bytes keep their old value. |
| PeerMod.Matching | UDPPeerMod.java:48 | The matching nodes are exactly those configured with the sender's ip and port. |
| PeerMod.Marked | UDPPeerMod.java:47-52 | Marking keeps every flag's key, and any entry it changes belongs to a node configured with the sender's address and is now `true`. |
| PeerMod.MarkedOnlyRaises | UDPPeerMod.java:47-52 | Marking never clears a flag, changes at most one entry, and changes nothing for an unconfigured sender. |
| PeerMod.MarkedFirstMatch | UDPPeerMod.java:47-52 | When several configured nodes share the sender's address, the first of them in iteration order is marked and nothing else changes. |
| PeerMod.MarkedUniqueAddress | UDPPeerMod.java:47-52 | When one configured node has the sender's address, that node is marked whatever the iteration order. |
| PeerMod.StaleBufferHidesEnd | UDPPeerMod.java:39 | After "PING from 9876", a later "THEEND" reads as "THEENDrom 9876" and does not stop the listener. |
| PeerMod.StaleByteHidesEnd | UDPPeerMod.java:55 | Any visible stale byte after the sixth keeps "THEEND" from being recognised. |
| PeerMod.BlankBufferMessage | UDPPeerMod.java:30-39 | On a blank buffer the message is the trimmed datagram. |
| PeerMod.LocalPort | UDPPeerMod.java:95 | The local port is negative exactly once the socket has been closed. |
| PeerMod.MessagesNamePort | UDPPeerMod.java:61 | Pings and acks carry their fixed prefix followed by a port number that `parseInt` reads back. |
| PeerMod.AllInactive | UDPPeerMod.java:20-22 | The constructor's loop flags every configured id, and only those, as inactive. |
| PeerMod.PeerMod.constructor | UDPPeerMod.java:11-26 | The constructor loads the directory and flags every id inactive if the bind succeeded, none otherwise. The buffer starts all NUL. |
| PeerMod.PeerMod.ReceiveInto | UDPPeerMod.java:33-36 | The reused buffer becomes the `Overlay` of its old contents. |
| PeerMod.PeerMod.MarkSender | UDPPeerMod.java:47-52 | The loop with its `break` leaves exactly `Marked` of the old flags. |
| PeerMod.PeerMod.OnDatagram | UDPPeerMod.java:32-68 | The sender is marked before the THEEND comparison. The peer closes and stops when the trimmed buffer is "THEEND" and otherwise replies "ACK from 9876". A failing reply send ends the listener with the socket open. Without an open socket nothing changes. |
| PeerMod.PeerMod.PingNodes | UDPPeerMod.java:87-106 | Each configured node, in iteration order, is pinged with the local port until the first failing one. Without a socket the ping thread ends before the first ping. |
| PeerMod.PingsReachEveryNode | UDPPeerMod.java:91-101 | A full ping round reaches every configured node exactly once. |
| RoundTrips.AnnouncementApplied | Server/UDPServer2.java:68-74 | After a client's announcement the coordinator says "Online" exactly when the client has files. It stores exactly the announced list if and only if the list is `Splittable`, and stores `[""]` for no files. |
| RoundTrips.StoredFilesSurvive | Client/ConfigLoader.java:87 | A file list read from nodes.config survives being announced and stored, unless it is empty. |
| RoundTrips.EntryDecoded | Server/UDPServer2.java:129 | A client decodes a snapshot entry into the node's status and its comma-joined files. |
| RoundTrips.SnapshotReceived | Client/UDPClient2.java:133-145 | A client shows one entry per snapshot packet with that node's status and files. An empty snapshot is reported as holding no packets. |
| RoundTrips.AnnounceThenSnapshot | Client/UDPClient2.java:102-103 | After announce, apply and broadcast, the client finds its own entry. The entry has the earned status and files text that splits back into the announced list. |
| RoundTrips.PeerAndCoordinatorUpdates | Peer/UDPPeer.java:107-108 | The peer and the coordinator store the same files. They agree on status when the payload length is positive; otherwise the peer says "Online" where the coordinator says "Offline". |

## Left out

- Sockets, `ObjectOutputStream`/`ObjectInputStream` serialisation, and threads with their interleavings and shared-state races. Each loop body is modelled as one atomic step. Deserialisation is a `Received` parameter.
- Directory.ConfigLoader.GetNodes and LegacyDirectory.ConfigLoader.GetNodes: Java hands out the shared `HashMap` itself, so a caller holding it sees later setter changes. The Dafny map is a value: a map taken before a setter does not see the change.
- `System.currentTimeMillis`, `SecureRandom`/`Random` draws, and `Thread.sleep`/`TimeUnit.sleep`. The time is a parameter, a draw is its offset above the lower bound, and sleeping is not modelled.
- Printing, `printNodes`, the interactive `main` methods with their id prompts, and `monitorNodes` in UDPPeerMod.java, which only prints.
- Reading nodes.config: its lines are a parameter. A missing file, which the Java code reports and treats as empty, is the empty list of lines.
- UDPPeerMod.java's `main` constructs a `UDPPeer`, not a `UDPPeerMod`, and calls its `start()`, which UDPPeer.java lacks because that class is not a `Thread`. UDPPeer.java does have the no-argument constructor, `createAndListenSocket` and `monitorNodes`. So `main` as written does not run the ping peer at all, and the ping peer is modelled from its own constructor and methods.
- UDPPeer.java, an earlier peer, is not part of this model.
- UDPClient2.java's sender reads `nodeInfo.files`, which the older ConfigLoader.java's `NodeInfo` lacks. The older client is therefore modelled against Client/ConfigLoader.java's `NodeInfo`.
- `Integer.parseInt` also accepts non-ASCII Unicode digits; ParseInt accepts ASCII digits only.
- Bytes are modelled as chars, one per byte. `new String(bytes)` charset decoding and `getBytes` encoding are not modelled.
- Packets.Packet.WithVersion, WithNodeId, WithDataLength and WithData model the setters as functional updates. Two references to one mutable `Packet` are not modelled; the core code never calls the setters.
- `nodeId` and `dataLength` are unbounded integers. A Java `String` cannot exceed 2^31-1 characters, so `dataLength` never wraps. Times are non-negative longs, so `now - last` does not overflow.
- Coordinator.Server.Listen follows the code, not the protocol description: the `catch` sits outside the `while`, so an undecodable datagram ends the listener instead of being skipped.
- RoundTrips.AnnouncementApplied: the empty file list does not round-trip (it comes back as `[""]`), and a list ending in "" or holding a ',' does not either. The lemma states this as an if-and-only-if.
- Peer.Peer.SendRound: a failing `new DatagramSocket()` for one id is folded into `failing`. For an id that is absent from the directory, the model reports the crash even where socket creation would have failed first.
- PeerMod.PeerMod.PingNodes: a failing `new DatagramSocket()` for the ping socket, which sends nothing, is not modelled separately.
- PeerMod.PeerMod.constructor: a failed bind is a parameter. The model leaves `activeNodes` empty in that case, as the Java code does when `new DatagramSocket(9876)` throws before the loop.
