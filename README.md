# libed2k core bookkeeping in Dafny

This project models the sequential bookkeeping at the heart of libed2k, an eDonkey2000 (eD2K)
client library, and proves properties of it. Sockets, threads, the disk layer and the wire
format are abstracted away. Four pieces are covered.

- **The peer policy of a transfer** (`src/policy.cpp`). The policy keeps a registry of known
  peers: an endpoint per record and an optional link to a connection. It is kept sorted by
  address so that `lower_bound` stays valid, and it survives every disconnect.
  - `add_peer` refuses filtered addresses, deduplicates, and inserts at the search position.
  - `new_connection` arbitrates duplicates: self-connections, failed endpoint reads,
    established versus connecting, and the registry capacity.
  - `ip_filter_updated` disconnects blocked peers without removing their records.
  - `find_connect_candidate` is a first-match scan.
- **The transfer** (`libed2k/src/transfer.cpp`).
  - The piece picker exists only outside seed mode and covers `div_ceil(filesize, PIECE_SIZE)` pieces.
  - `piece_finished` dispatches on the hash-check result.
  - `piece_passed` calls `finished()` exactly on the edge to "every piece had".
  - `finished()` drops the picker first (for a seed), then disconnects the upload-only
    connections, then asks for the files to be released.
  - `connect_to_peer` registers a connection and rolls it back when the half-open queue refuses it.
  - `second_tick` disconnects a connection whose tick throws and still ticks the others.
- **The session** (`src/session_impl.cpp`, a subset).
  - The transfer map, with duplicate handling and queue positions.
  - The queue of transfers waiting for their file check.
  - The session-wide connection registry.
  - Send-buffer rounding.
  - The announce and reconnect millisecond timers, and the announce selection.
  - `pause`/`resume`.
  - The fair-share arithmetic of `update_connections_limit`.
  - The settings clamps.
- **Small types of `include/libed2k/file.hpp`**.
  - `hash_status`.
  - The `known_file_collection` header check in `save`/`load`.
  - `emule_collection_entry`.
  - The FIFO queue of `monitor_order`, taken without its mutex: `pop_wait` does not block.

Modules:

- `Base`: Option, `INT_MAX`, C++ truncating division, `div_ceil`.
- `Net`: endpoints, connections as values, disconnect reasons.
- `PeerList`: the registry as a value, plus its searches and lemmas.
- `Picker`: the piece picker as a value.
- `Session`: the class `Session`, plus functions and lemmas that specify its methods.
- `Swarm`: the classes `Policy` and `Transfer`, which point at each other and at the session.
- `File`: file.hpp.

Each method that changes state is proved to produce exactly the new state described by a
function of the old one. The lemmas about those functions carry the properties. Calls into
code that is not part of the model are recorded in order:

- `Session.calls` records calls such as `do_pause`, `disconnect_peers` and the server connection.
- `Transfer.trace` records disconnects, ticks, the picker reset and the file release.

Decisions where the cited code leaves a definition out, or the model deliberately differs:

- `find_peers` is declared in policy.hpp, which is not part of this model. It is modelled as
  libtorrent's `std::equal_range` by address, so the registry is kept sorted in both modes.
- `is_seed`, `is_finished` and `num_have` live in transfer.hpp, which is not part of this
  model. They take libtorrent's definitions, with no piece filtering: without a picker the
  transfer is a seed.
- `PIECE_SIZE` is 9728000 bytes (eD2K's 9500 KiB). `send_buffer_size` is 128 (libtorrent's
  value). constants.hpp and session_impl.hpp are not part of this model.
- A failed endpoint read yields asio's default endpoint `(0, 0)`. The self-connection
  comparison of `new_connection` uses that value, and the error codes `ec1`/`ec2` hold the
  status of the last read made on each socket, as the code orders the reads.
- The loops of `finished()` and `second_tick()` call `disconnect` while iterating
  `m_connections`, and `disconnect` erases from that set. They are modelled as visiting, once
  each and in some order, the connections the set held when the loop began.
  `ip_filter_updated()` instead walks the `m_peers` vector, which `connection_closed` leaves
  intact. It is modelled as an index walk over the registry.
- `dequeue_check_transfer` is modelled with the corrected choice of the next transfer (see
  Findings). The code as written is modelled beside it.

## Model

| member | source | states |
|---|---|---|
| Base.CDiv | src/session_impl.cpp:755 | C++ `/` truncates toward zero: the quotient brackets the dividend from below for a non-negative dividend and from above for a negative one |
| Base.DivCeilCovers | libed2k/src/transfer.cpp:117 | `div_ceil(a, b)` is the least count of `b`-sized units covering `a`: count·b ≥ a, count·b < a + b, and it is zero exactly for a = 0 |
| PeerList.LowerBound | src/policy.cpp:60-61 | the first index whose address is not below `a`; every earlier record has a smaller address |
| PeerList.UpperBound | src/policy.cpp:52-53 | the end of the equal range of `a`: not before the lower bound, every earlier address ≤ `a`, the next one above it |
| PeerList.SearchLowerBound | src/policy.cpp:105-106 | the binary search on a sorted registry returns exactly the lower bound |
| PeerList.SearchUpperBound | src/policy.cpp:97-98 | the binary search on a sorted registry returns exactly the upper bound |
| PeerList.FindEndpoint | src/policy.cpp:54 | `find_if` with `match_peer_endpoint` over a range: the first exact endpoint match, or the range end when none matches |
| PeerList.ScanForEndpoint | src/policy.cpp:99 | the linear scan returns the first exact endpoint match of the range, or its end |
| PeerList.Locate | src/policy.cpp:50-65 | the lookup position never passes the end, and a found record is inside the registry |
| PeerList.LocateCorrect | src/policy.cpp:47-65 | on a sorted registry the lookup finds a record iff one has the key (the address, or the exact endpoint with several connections per IP); the record found has the key; on a miss the position keeps address order |
| PeerList.Insert | src/policy.cpp:77 | `vector::insert`: one more record, the new one at the position, the others shifted in order |
| PeerList.InsertKeepsValid | src/policy.cpp:67-79 | inserting an unlinked new endpoint at an insertion point keeps the registry sorted, endpoint-distinct and link-distinct |
| PeerList.Bind | src/policy.cpp:184-190 | binding links exactly record `k` to the connection and changes no other record |
| PeerList.BindKeepsValid | src/policy.cpp:184-190 | binding a connection no record points at keeps every registry invariant |
| PeerList.ClearLink | src/policy.cpp:194-208 | connection_closed: no record points at the connection any more; every record keeps its endpoint; records that did not point at it are untouched; no record is removed |
| PeerList.ClearLinkAt | src/policy.cpp:196-208 | with distinct links, closing a connection clears exactly the record `get_peer()` names |
| PeerList.ClearLinkKeepsValid | src/policy.cpp:208-221 | closing a connection keeps the registry valid (the list is left intact) |
| PeerList.ClearLinkUnlinked | src/policy.cpp:202-203 | closing a connection no record points at changes nothing |
| PeerList.BindThenClear | src/policy.cpp:184-208 | binding a connection to an unlinked record and then closing it restores the registry |
| PeerList.ClearLinks | src/policy.cpp:194-208 | clearing a set of connections keeps every record and its endpoint |
| PeerList.ClearLinksKeepsValid | src/policy.cpp:194-208 | clearing a set of connections keeps the registry valid |
| PeerList.FindLinked | src/policy.cpp:198-200 | the scan with `match_peer_connection` returns the first record pointing at the connection, or the end |
| PeerList.AddPeerCorrect | src/policy.cpp:47-81 | add_peer keeps the registry valid; a matching record is returned with the registry unchanged; otherwise a new unlinked record for the endpoint is inserted at the returned position and every other record stays in order, unless the pool is exhausted, in which case nothing is returned and nothing changes |
| PeerList.AddPeersKeepsSorted | src/policy.cpp:58-79 | any number of add_peer calls keep the registry sorted, so `lower_bound` stays valid |
| PeerList.SelfConnectionSymmetric | src/policy.cpp:125-141 | with readable endpoints both connections are dropped exactly when the two are the ends of one link, whichever of them is the new one |
| PeerList.DuplicateArbitration | src/policy.cpp:145-159 | without a self-connection, an established existing connection or an outgoing new one makes the new one lose with duplicate_peer_id; otherwise the existing one loses with duplicate_peer_id |
| PeerList.AdmitCorrect | src/policy.cpp:84-191 | new_connection keeps the registry valid and never removes a record; on success the connection is bound to a record whose key matches its remote endpoint; on failure it is bound to nothing |
| PeerList.AdmitKnownPeer | src/policy.cpp:112-161 | the same guarantee when a record with the key exists |
| PeerList.AdmitUnknownPeer | src/policy.cpp:162-182 | the same guarantee when no record has the key |
| PeerList.AdmitAtCapacity | src/policy.cpp:168-172 | an unknown peer arriving when the registry holds max_peerlist_size records or more is refused with too_many_connections; the registry is unchanged |
| PeerList.AdmitLinkedCases | src/policy.cpp:118-160 | for a linked record, new_connection by verdict: a refused newcomer only clears its own link; a self connection clears both links in order; a replaced connection leaves the record bound to the newcomer, with success |
| PeerList.AdmitSelfConnection | src/policy.cpp:118-141 | when the matching record's connection cross-matches the new one, both are disconnected with self_connection (new one first), the call fails, and only that record loses its link |
| PeerList.FirstCandidate | src/policy.cpp:286-292 | the first record that is a connect candidate, or the end when there is none |
| PeerList.FindConnectCandidate | src/policy.cpp:286-292 | the scan of find_connect_candidate returns exactly the first candidate or the end |
| PeerList.BoundIsNoCandidate | src/policy.cpp:294-302 | a record just bound to a connection is no connect candidate, whatever the session holds |
| PeerList.ClearBlocked | src/policy.cpp:225-264 | the registry after the ip filter sweep has as many records as before |
| PeerList.IpFilterSweepCorrect | src/policy.cpp:229-263 | the sweep disconnects exactly the connections of blocked records; it posts one alert per blocked record; every record keeps its endpoint; unblocked records are untouched; blocked ones lose their link |
| PeerList.BlockedConnectionsExact | src/policy.cpp:244-251 | a connection is disconnected by the sweep iff some blocked record points at it |
| PeerList.BlockedAddressesCount | src/policy.cpp:231-237 | the sweep posts as many peer_blocked alerts as there are blocked records |
| Picker.Init | libed2k/src/transfer.cpp:191-196 | a fresh picker of `n` pieces is valid, has no piece and has no piece waiting for its check |
| Picker.WeHaveCounts | libed2k/src/transfer.cpp:108-113 | we_have keeps the picker valid and the piece count; it adds one had piece exactly when the piece was new, and the piece stops waiting |
| Picker.NumHaveBounded | libed2k/src/transfer.cpp:94 | a valid picker never has more pieces than the file |
| Picker.AllHad | libed2k/src/transfer.cpp:94-96 | when the count of had pieces reaches the piece count, every piece is had |
| Picker.RestoreKeeps | libed2k/src/transfer.cpp:253 | restore_piece keeps the picker valid and the had count, and changes only that piece's waiting status |
| Picker.BlocksWrittenKeeps | libed2k/src/transfer.cpp:232-238 | a piece whose blocks are written waits for its check iff it was not had |
| Picker.PassAllGrows | libed2k/src/transfer.cpp:92-113 | a run of passed pieces keeps the picker valid and never loses a piece or exceeds the piece count |
| Picker.EdgesExact | libed2k/src/transfer.cpp:92-106 | along any run of passed pieces, finished() is triggered once if the run starts short of the last piece and ends with every piece, and never otherwise |
| Session.FindTransfer | src/session_impl.cpp:524-531 | find_transfer(hash) finds an entry iff the map holds that hash, and the entry found has it |
| Session.NextQueuePositionIsMaxPlusOne | src/session_impl.cpp:672-678 | the new queue position is above every existing position and is 0 or one more than an existing one |
| Session.InsertEntry | src/session_impl.cpp:683 | map insert: one more entry, the new one present, every old one kept, nothing else added |
| Session.InsertEntryKeepsSorted | src/session_impl.cpp:683 | inserting a new hash keeps map order |
| Session.RemoveAt | src/session_impl.cpp:711 | map erase: one entry fewer, the others in order |
| Session.LocateTransfer | src/session_impl.cpp:696 | `m_transfers.find`: the index of the hash, or the end exactly when it is absent |
| Session.RemoveKeepsSorted | src/session_impl.cpp:696-711 | erasing keeps map order and leaves the hash absent |
| Session.PickNext | src/session_impl.cpp:616-626 | the next-check candidate after `n` elements lies among them |
| Session.PickNextAsWritten | src/session_impl.cpp:616-626 | the same candidate as the code computes it lies among the first `n` elements |
| Session.LastIndexOf | src/session_impl.cpp:617-624 | the iterator `done`: an index of `t`, or the end exactly when `t` is not among the first `n` |
| Session.PickNextIsMinimal | src/session_impl.cpp:616-626 | when another transfer is queued, the one chosen is not `t` and has the lowest queue position of all others |
| Session.DequeueFrom | src/session_impl.cpp:610-635 | the loop of dequeue_check_transfer computes exactly the dequeued queue |
| Session.DequeueAsWrittenStalls | src/session_impl.cpp:620-634 | as written, dequeuing the checking transfer `[(1,5,idle),(2,1,checking)]` by 2 leaves transfer 1 queued with nothing checking |
| Session.DequeueShape | src/session_impl.cpp:610-635 | t is removed and every other element keeps its order and data; the remaining element with the lowest queue position starts when, and only when, t was checking |
| Session.DequeueStarts | src/session_impl.cpp:616-631 | dequeuing the checking transfer of a queue with others starts the lowest-position one among the rest |
| Session.StartThenRemove | src/session_impl.cpp:626-634 | starting the next candidate and then erasing t is the same as erasing t and starting the candidate at its shifted index |
| Session.RestMinimal | src/session_impl.cpp:616-626 | the candidate with the lowest position keeps the lowest position among the transfers left after t is erased |
| Session.DequeueKeepsInvariant | src/session_impl.cpp:610-635 | dequeuing keeps hashes distinct and exactly one transfer checking while any is queued; t is gone afterwards; nothing changes when t was not queued |
| Session.QueueCheckCorrect | src/session_impl.cpp:596-607 | queuing a transfer that is not queued keeps exactly one checking; the new one checks iff the queue was empty |
| Session.MarkAnnounced | src/session_impl.cpp:1259 | marking the selection keeps the number of entries |
| Session.SelectionCorrect | src/session_impl.cpp:1241-1262 | the announce selection fits the room left in the packet, holds only unannounced transfers with something to announce, in map order, and misses one only when the packet is full |
| Session.FileOffers | src/session_impl.cpp:1258 | one offer per selected transfer, in order |
| Session.Tick | src/session_impl.cpp:1224-1237 | a timeout of -1 disables the timer; otherwise it fires iff the accumulated time reaches timeout·1000 ms, resets to 0 when firing, and accumulates the tick otherwise |
| Session.ElapsedBeforeFiring | src/session_impl.cpp:1230-1235 | before the timeout is reached the accumulator holds the sum of the ticks |
| Session.TimerPeriod | src/session_impl.cpp:1224-1237 | with positive tick and timeout, the timer first fires on tick number ceil(timeout·1000 / tick) and is silent before it |
| Session.Rebalance | src/session_impl.cpp:1396-1416 | the rounds never lower the average and keep the extra slots non-negative |
| Session.Distribute | src/session_impl.cpp:1418-1436 | one request slot per transfer |
| Session.DistributeBounds | src/session_impl.cpp:1418-1436 | exactly the transfers above the average are asked, each for at least 0 and at most its peers above the average, and the requests add up to at most the connections to shed |
| Session.PeerCounts | src/session_impl.cpp:1403 | the peer counts of the transfers, in map order |
| Session.LimitCallsBounds | src/session_impl.cpp:1382-1436 | over the limit, only transfers with more peers than limit / n are asked, never for more than they have above it, and for at most num_connections − limit in total |
| Session.DisconnectCallsCorrect | src/session_impl.cpp:1432-1435 | the disconnect_peers calls are fair and add up to the requests |
| Session.RateClamped | src/session_impl.cpp:1440-1453 | update_rate_settings: a non-positive half-open limit becomes INT_MAX, a negative rate becomes 0, valid values and every other setting are kept |
| Session.LimitClamped | src/session_impl.cpp:1368-1370 | a non-positive connections limit becomes INT_MAX; a positive one is kept |
| Session.Sanitized | src/session_impl.cpp:247-300 | set_settings stores s with a non-positive chunk size replaced by 1, the rate clamps, a non-positive limit replaced by INT_MAX only when the limit changed, and a negative connection speed replaced by 200; valid values and all other fields are kept |
| Session.AllocateBuffer | src/session_impl.cpp:753-761 | the capacity is the buffer count times send_buffer_size; for a non-negative size it is the least multiple of send_buffer_size holding the size: at least the size and less than size + send_buffer_size |
| Session.Session.constructor | src/session_impl.cpp:84-107 | a new session is not aborted or paused, has no transfers, queue or connections, and both timers at 0 |
| Session.Session.AddTransfer | src/session_impl.cpp:647-689 | aborted: session_closing, no handle, nothing changes; duplicate hash: the existing handle, or duplicate_transfer when duplicates are errors, nothing inserted; otherwise the entry is keyed by its hash with queue position max + 1, and an added alert is posted |
| Session.Session.RemoveTransfer | src/session_impl.cpp:691-715 | an expired or unknown handle changes nothing; otherwise the entry is erased, the transfer is aborted (deleting files when asked) and a deleted alert is posted |
| Session.Session.QueueCheckTransfer | src/session_impl.cpp:596-607 | aborted: nothing; otherwise t is appended, checking iff the queue was empty |
| Session.Session.DequeueCheckTransfer | src/session_impl.cpp:610-635 | the queue becomes the dequeued queue, and the invariant holds |
| Session.Session.CloseConnection | src/session_impl.cpp:637-645 | the connection leaves the session registry and nothing else changes |
| Session.Session.Pause | src/session_impl.cpp:910-920 | idempotent: already paused does nothing; otherwise every transfer is paused in map order |
| Session.Session.Resume | src/session_impl.cpp:922-932 | idempotent: not paused does nothing; otherwise every transfer is resumed in map order |
| Session.Session.Announce | src/session_impl.cpp:1221-1319 | the timer ticks; when it fires, the selection is marked announced and posted, or the user is announced once when nothing is selected |
| Session.Session.Reconnect | src/session_impl.cpp:1321-1346 | -1 disables it; not offline resets the counter; offline ticks the timer and starts the server connection when it fires |
| Session.Session.ServerConnStop | src/session_impl.cpp:1353-1364 | the server connection stops and every transfer and the user are to be announced again |
| Session.Session.UpdateRateSettings | src/session_impl.cpp:1440-1453 | the stored settings are the clamped ones and the half-open queue and both throttles get them |
| Session.Session.UpdateConnectionsLimit | src/session_impl.cpp:1366-1438 | the limit is clamped; over it with transfers, exactly the fair-share disconnect calls are made; otherwise none |
| Session.Session.SetSettings | src/session_impl.cpp:247-300 | stores the sanitized settings, applies the rate settings, and rebalances only when the connections limit changed |
| Session.PauseCalls | src/session_impl.cpp:914-919 | one do_pause per transfer, in map order |
| Session.ResumeCalls | src/session_impl.cpp:926-931 | one do_resume per transfer, in map order |
| Session.Unannounced | src/session_impl.cpp:1357-1361 | every entry unannounced, everything else as before |
| Session.UnannouncedKeepsSorted | src/session_impl.cpp:1357-1361 | clearing the announced flags keeps map order |
| Session.SelectAndMark | src/session_impl.cpp:1241-1262 | the announce loop collects exactly the selection and marks exactly its transfers |
| Session.LimitLoop | src/session_impl.cpp:1387-1436 | the computation over the limit makes exactly the fair-share calls |
| Session.DisconnectLoop | src/session_impl.cpp:1418-1436 | one disconnect_peers call per asked transfer, in map order |
| Session.RebalanceLoop | src/session_impl.cpp:1389-1416 | the nested loops compute exactly the rebalanced share |
| Session.CountRound | src/session_impl.cpp:1399-1407 | one pass counts the transfers above both averages and adds the slots freed between them |
| Session.DistributeLoop | src/session_impl.cpp:1418-1436 | the final loop computes exactly the requests |
| Swarm.PieceCount | libed2k/src/transfer.cpp:115-118 | num_pieces is the fewest PIECE_SIZE pieces covering the file, 0 exactly for an empty file |
| Swarm.BlockedAlerts | src/policy.cpp:237 | one peer_blocked alert per address, in order |
| Swarm.DropAll | libed2k/src/transfer.cpp:146-154 | one disconnect per connection, in order, with the given reason |
| Swarm.TicksOfRound | libed2k/src/transfer.cpp:202-219 | visiting each connection once, in any order, is one round of second_tick: each failing one disconnected with no_error, every other ticked |
| Swarm.DropAllDisconnects | libed2k/src/transfer.cpp:146-154 | disconnecting each connection once, in any order, disconnects all of them and does nothing else |
| Swarm.SweepOfLists | src/policy.cpp:229-263 | the sweep posts the alerts of the blocked addresses and disconnects the blocked connections in registry order |
| Swarm.FinishedDropsUploadOnly | libed2k/src/transfer.cpp:145-154 | after finished() no remaining connection is upload-only, no record points at one, and no record is removed |
| Swarm.CompletedBeforeDisconnects | libed2k/src/transfer.cpp:140-160 | in finished() of a seed the picker is dropped before any disconnect, only transfer_finished disconnects follow, and the file release comes last |
| Swarm.Policy.constructor | src/policy.cpp:32-34 | a new policy has an empty registry |
| Swarm.Policy.Find | src/policy.cpp:47-65 | the lookup with the binary searches equals the lookup function |
| Swarm.Policy.AddPeer | src/policy.cpp:36-82 | a filtered address: no peer, a peer_blocked alert, the registry unchanged; otherwise the registry and result of add_peer, no alert |
| Swarm.Policy.NewConnection | src/policy.cpp:84-191 | the result and registry new_connection decides, with its disconnects made in order and their connections gone from both sets |
| Swarm.Policy.AdmitKnown | src/policy.cpp:112-161 | the same outcome for a known peer |
| Swarm.Policy.AdmitLinked | src/policy.cpp:118-160 | the same outcome when the known peer is already connected, by the arbitration verdict between the two connections |
| Swarm.Policy.RefuseIncoming | src/policy.cpp:130-154 | a failed endpoint read of the new connection, or a duplicate to keep out: the new connection alone is disconnected and false is returned |
| Swarm.Policy.RefuseSelfConnection | src/policy.cpp:136-141 | a self connection: both connections are disconnected with self_connection, in that order, and false is returned |
| Swarm.Policy.ReplaceExisting | src/policy.cpp:145-160 | the existing connection is disconnected and the record is linked to the new one, which is accepted |
| Swarm.Transfer.DisconnectBoth | src/policy.cpp:138-139 | two disconnects in a row: both links cleared, both connections gone from both sets, two trace entries in order |
| Swarm.Policy.AdmitUnknown | src/policy.cpp:162-182 | the same outcome for an unknown peer |
| Swarm.Policy.ConnectionClosed | src/policy.cpp:194-222 | the record forgets the connection; no record is removed |
| Swarm.Policy.IpFilterUpdated | src/policy.cpp:225-264 | a peer_blocked alert per blocked record and a banned_by_ip_filter disconnect per blocked connection, in registry order; every record stays |
| Swarm.Policy.SweepRecords | src/policy.cpp:229-263 | the loop produces the sweep of the whole registry |
| Swarm.Policy.SweepRecord | src/policy.cpp:231-259 | one record: an alert when blocked, and a disconnect when blocked and linked |
| Swarm.Policy.SetConnection | src/policy.cpp:266-269 | the record's link becomes the given one and nothing else changes |
| Swarm.Policy.ConnectOnePeer | src/policy.cpp:271-284 | no candidate: false and nothing changes; otherwise connect_to_peer on the first candidate, whose result is the call's |
| Swarm.Transfer.constructor | libed2k/src/transfer.cpp:15-28 | a new transfer is not paused or aborted, has no picker, no connections and an empty registry |
| Swarm.Transfer.WantMorePeers | libed2k/src/transfer.cpp:82-85 | true exactly when neither the transfer nor the session is paused and the transfer is not aborted |
| Swarm.Transfer.Start | libed2k/src/transfer.cpp:34-44 | outside seed mode a fresh picker of num_pieces pieces; in seed mode no change |
| Swarm.Transfer.Disconnect | src/policy.cpp:194-208 | a disconnect clears the record's link and removes the connection from both sets, recorded in the trace |
| Swarm.Transfer.ConnectToPeer | libed2k/src/transfer.cpp:46-80 | accepted: in both sets and linked to the peer, returns true; refused: removed from the transfer set, disconnected with no_error, returns false |
| Swarm.Transfer.WeHave | libed2k/src/transfer.cpp:108-113 | the picker's we_have |
| Swarm.Transfer.Completed | libed2k/src/transfer.cpp:121-129 | the picker goes |
| Swarm.Transfer.Finished | libed2k/src/transfer.cpp:133-161 | completed() first for a seed, then every upload-only connection disconnected with transfer_finished, then the file release |
| Swarm.Transfer.DisconnectUploadOnly | libed2k/src/transfer.cpp:145-154 | exactly the upload-only connections go, each disconnected once with transfer_finished |
| Swarm.Transfer.DropEachUploadOnly | libed2k/src/transfer.cpp:146-154 | the loop disconnects the upload-only connections in some order, each once |
| Swarm.Transfer.PiecePassed | libed2k/src/transfer.cpp:92-106 | we_have(i), then finished() exactly on the not-finished to finished edge |
| Swarm.Transfer.PieceFinished | libed2k/src/transfer.cpp:230-256 | nothing changes unless the picker reports the piece finished; 0 passes the piece, -2 changes nothing, any other value restores it |
| Swarm.Transfer.TickOne | libed2k/src/transfer.cpp:207-217 | a throwing tick disconnects the connection with no_error; otherwise it is ticked and nothing else changes |
| Swarm.Transfer.SecondTick | libed2k/src/transfer.cpp:202-219 | the failing connections are disconnected with no_error, every other connection is ticked, and nothing else changes |
| Swarm.Transfer.TickEach | libed2k/src/transfer.cpp:204-218 | the loop visits every connection once and ticks or disconnects each |
| File.HashStatusFacts | include/libed2k/file.hpp:211-223 | a default status is valid and not completed; completed means current ≠ 0 and current = total; completion ignores the error; == is value equality |
| File.Save | include/libed2k/file.hpp:154-164 | save fails with known_file_invalid_header, before writing, iff the header is neither 0x0E nor 0x0F; otherwise it appends the header and the list |
| File.SaveLoadRoundTrip | include/libed2k/file.hpp:153-178 | loading what save wrote gives back the saved collection, whatever the target held |
| File.LoadHeaderCheck | include/libed2k/file.hpp:167-178 | load succeeds iff the archive starts with a valid header; a bad header throws with the header already stored and the list untouched |
| File.CollectionEntryFacts | include/libed2k/file.hpp:358-377 | == compares exactly name, size and hash; equal entries agree on defined(); a default entry or one with a zero size is not defined |
| File.WithoutSpec | include/libed2k/file.hpp:261-265 | cancel erases every element equal to d and keeps the count of every other element |
| File.WithoutAppend | include/libed2k/file.hpp:264 | erasing distributes over concatenation, so the remaining elements keep their order |
| File.Fifo | include/libed2k/file.hpp:237-298 | after pushing xs, popping everything returns the old contents and then xs in push order |
| File.MonitorOrder.constructor | include/libed2k/file.hpp:232-235 | not cancelled and empty |
| File.MonitorOrder.Push | include/libed2k/file.hpp:237-243 | the element goes to the front; one more push |
| File.MonitorOrder.Abort | include/libed2k/file.hpp:248-256 | the queue empties, every element counted as dropped, and waiting is cancelled |
| File.MonitorOrder.Cancel | include/libed2k/file.hpp:261-265 | the queue without the elements equal to d, which count as dropped |
| File.MonitorOrder.Size | include/libed2k/file.hpp:267-271 | the length of the queue, which is pushes − pops − drops |
| File.MonitorOrder.Reset | include/libed2k/file.hpp:273-277 | the cancelled flag is cleared |
| File.MonitorOrder.PopWait | include/libed2k/file.hpp:282-298 | cancelled or empty: nothing and no change; otherwise the back element leaves the queue, in FIFO order |

## Left out

- Sockets, listeners, the io_service loop, threads, the disk thread and storage construction are
  I/O. Storage release is a `ReleaseRequested` step in the transfer's trace.
- Windows version and rlimit capping in the session constructor and in
  `update_connections_limit` are OS queries. The model does not take the `LIBED2K_USE_RLIMIT` branch.
- `status()`, `buffer_usage()`, `on_tick` and `connect_new_peers` are statistics, timer driving
  and exception-driven memory recovery.
- The tags `announce` builds for the user offer are wire format. The user offer is one
  `UserOffer` entry without its tags or its total size.
- `find_transfer(filename)` depends on path combination, which is not part of this model. Only
  the lookup by hash is modelled.
- Session.Session.RemoveTransfer: the effects of `delete_files`/`abort` on the transfer are a
  recorded call, and the `m_next_connect_transfer` cursor is not modelled.
- Session.Session.AddTransfer: the new transfer is an entry of the map, not a started transfer
  object; `transfer::start` is modelled separately as Swarm.Transfer.Start.
- Session.Session.SetSettings: the disk-thread settings notification and the alert queue size
  are not modelled. The file pool size assertion becomes a precondition.
- 32-bit overflow is not modelled. The timer sum, `timeout * 1000`, the queue positions and the
  buffer count are unbounded integers. INT_MAX is the 32-bit value.
- The internals of `peer_connection`, `piece_picker` and `ip_filter` are not part of this model.
  - A connection is a value with its endpoint reads and flags.
  - `disconnect` is Swarm.Transfer.Disconnect.
  - The picker is the sets of had and waiting pieces.
  - The ip filter is a set of blocked addresses.
- Swarm.Transfer.DropEachUploadOnly: `finished()` erases from `m_connections` while iterating it.
  If `disconnect` erases at once, as the model's Disconnect does, the iterator is invalidated,
  which is undefined behaviour in C++. The model visits a snapshot of the set instead, so it
  does not capture skipped or repeated elements and does not capture the iteration order.
- Swarm.Transfer.TickEach: the same holds for the loop of `second_tick()`. The model visits a
  snapshot of the connections, each once.
- Session.Session.UpdateConnectionsLimit: `num_peers()` of each transfer is the entry's
  `numPeers` field, a snapshot the environment supplies. It is not linked to the connections of
  Swarm.Transfer. AddTransfer creates it as 0 and nothing in the model updates it, so a session
  built only from this model's operations never reaches the disconnect branch.
- Session.Session.Announce: whether `getAnnounce()` yields a non-empty entry is the entry's
  `announceable` field, a snapshot the environment supplies. AddTransfer takes its initial value
  from the caller, since `add_transfer_params` has no such field. It is not linked to the
  picker of Swarm.Transfer.
- Alerts: `post_alert_should` is modelled as an unconditional append, so the `alerts` sequence
  holds every alert offered. The alert category mask that filters them is not modelled.
- Swarm.Policy.ConnectOnePeer: the new connection's socket reports no endpoint yet
  (`ReadFailed`), as an unconnected socket would.
- Swarm.Transfer.constructor: `m_filesize` is not set by the transfer constructor shown, so the
  model takes the file size as a constructor parameter.
- Swarm.Transfer.IsPaused and Swarm.Transfer.NumHave are plain definitions without contracts of
  their own. Their meaning is stated through WantMorePeers and the picker lemmas.
- Swarm.Transfer.PieceFinished: requires a picker, as the code dereferences `m_picker` unconditionally.
- File.Save/File.Load: the known file list is opaque bytes, read to the end of the archive. Its
  own serializer, the collection file I/O and the link conversions are not part of this model.
- File.CollectionEntryFacts: md4_hash.hpp is not part of this model. `defined()` is taken to mean
  "some byte is non-zero".
- File.MonitorOrder.PopWait: the mutex, the condition variable and the blocking wait are
  concurrency. `pop_wait` on an empty queue returns nothing instead of waiting. The
  `transfer_params_maker` thread is not modelled.

## Findings

| source | as written | input that shows it | evidently intended | confidence | as-written member | corrected member |
|---|---|---|---|---|---|---|
| src/session_impl.cpp:620-626 | `next_check` is replaced by any element with a lower queue position, including `t` itself, unless `next_check == t` | queue `[(hash 1, position 5, queued), (hash 2, position 1, checking)]`, dequeue transfer 2: `next_check` becomes transfer 2, so `next_check != t` is false, nothing is started and transfer 1 is queued with nothing checking until `on_tick`'s fallback | skip `t` and start the remaining transfer with the lowest queue position whenever `t` was checking | not executed | Session.DequeueAsWrittenStalls | Session.DequeueKeepsInvariant |

The corrected selection is Session.PickNext, and Session.PickNextIsMinimal proves it minimal.
Session.DequeueShape states the full effect of the corrected dequeue. `on_tick`'s fallback at
src/session_impl.cpp:1033-1049 starts the transfer with the lowest queue position when nothing
is checking, after `LIBED2K_ASSERT(false)`. So the as-written dequeue starts nothing, and the
remaining transfer is started only on a later tick, with an assertion failure in debug builds.
