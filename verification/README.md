# discv5 in Dafny

A model of a Rust implementation of the discv5 node discovery protocol, with proofs of what it keeps. `dafny verify dfyconfig.toml` checks everything.

The model follows the program's components. Values describe what each component means; classes and methods with loops describe how it works, and
each is proved to do what the values say.

- **Routing table.** `Keys` (the XOR metric), `Bucket`, `BucketRuns`, `KBucket` (one bucket as nodes by last status report, and as the stored list with
  its cached position), `BucketLaws` (a bucket as a map from keys), `Filter` (the /24 filter), `Table`, `TableLaws`, `KBucketsTable`, `NodesByDistances`, `ClosestOrder`, `Walk`, `Closest` (the walk driven by
  the bits of the distance).
- **Session handler.** `HandlerTypes`, `ActiveRequests` (two indexes over one list), `HandlerSpec` (the step machine), `Ledger` and `HandlerBooks` (where
  every request is), `HandlerCover` (counts), `HandlerRuns` and `HandlerSafety` (what holds in every run), `HandlerLaws` (what each event does), `ServiceRuns` (handler and service
  together), `Replay`, `Handler` (the class).
- **Lookups.** `Query`, `QueryRuns`, `LookupLaws` (the peers as a map from ids), `LookupQuery`: both kinds of iterative lookup in one machine. Without a predicate every peer matches.
- **Rates and caches.** `RateLimiter`, `Timeline`, `PacketCache`, `LruTimeCache`.
- **Messages.** `Nodes`, `NodesRuns` and `NodesService` (splitting and collecting NODES responses), `Packet` and `PacketCodec` (the wire format).
- `Lists` and `Wrappers` hold what the others share.

Conventions:

- Time is an explicit argument read once per operation; times never decrease in a run.
- Nonces and request ids are inputs. The handler's runs assume ids are new and drawn nonces differ from each other and from those in flight; nothing is
  assumed about what other nodes send.
- Keys, signatures, ciphertexts and node records are abstract. The outcome of cryptographic work is an input of the step that uses it. The packet mask is
  an exclusive or with an arbitrary stream that depends on key and IV.
- Keys are 256 bits, least significant first. An IV is its 16 bytes.

Where the code and its documentation differ, the model follows the code:

- The bucket walk visits bucket zero twice for some targets (`ClosestOrder.OrderCovers`), so the node of that bucket can come twice
  (`ClosestNodes.NeighbourComesTwice`; exactly when, `ClosestNodes.ClosestWalkIsScan`).
- `nodes_by_distances` returns one node even when none are allowed (`Distances.OneDespiteLimit`; exactly when, `Distances.NodesByDistances`).
- A lookup's progress is decided by the last peer an answer returns (`LookupRuns.ProgressAsDocumented`, `LookupRuns.ProgressOverlooksCloser`).
- Rounding in the rate limiter can allow bursts above the quota (`RateLimits.BurstsUpToQuota`, `RateLimits.BurstExample`).
- An answer to a request that mixes distance zero with others fails the requesting side's own filter (`NodesResponses.OwnRecordIsRefused`;
  exactly when, `NodesResponses.SentIsAccepted`).

## Model

| member | source | states |
|---|---|---|
| `Keys.XorMetric` | src/kbucket/key.rs:83-87 | Distance is a metric: zero only between equal keys, symmetric, within the triangle inequality, and each distance from a key is reached by one key only |
| `Keys.Log2DistanceIsLogarithm` | src/kbucket/key.rs:92-100 | The log2 distance is absent exactly for equal keys, symmetric, between 1 and 256, and one more than the integer logarithm of the distance |
| `KBuckets.KBucket.constructor` | src/kbucket/bucket.rs:244-257 | A new bucket is empty and valid |
| `KBuckets.KBucket.Insert` | src/kbucket/bucket.rs:537-605 | Inserting into the stored list, with its cached first-connected position, is inserting into the list by last report; every refusal and the pending slot included |
| `KBuckets.KBucket.ApplyPending` | src/kbucket/bucket.rs:286-371 | Applying the pending node to the stored list is applying it to the list by last report; a ready node evicts the first stored one only if that is disconnected |
| `KBuckets.KBucket.UpdateStatus` | src/kbucket/bucket.rs:385-475 | A status report moves the node to the end of its half of the stored list, or changes or refuses it as the list by last report says |
| `KBuckets.KBucket.UpdateValue` | src/kbucket/bucket.rs:482-514 | A value update keeps the node's place and may remove it when the filter refuses the value |
| `KBuckets.KBucket.UpdatePending` | src/kbucket/bucket.rs:374-378 | Only the pending node's status changes |
| `KBuckets.KBucket.Remove` | src/kbucket/bucket.rs:608-617 | The key leaves, the cached position follows, and the pending node is applied |
| `KBuckets.KBucket.IsMaxIncoming` | src/kbucket/bucket.rs:670-676 | True exactly when as many connected incoming nodes are stored as allowed |
| `KBuckets.RemovedFirst` | src/kbucket/bucket.rs:682-692 | After a removal the adjusted position is again that of the first connected node, and absent exactly when none is left |
| `BucketRuns.RunKeeps` | src/kbucket/bucket.rs:286-617 | In every run: distinct keys, at most 16 nodes, connected incoming ones within the limit, and pending key not stored |
| `BucketRuns.ApplyPendingEvicts` | src/kbucket/bucket.rs:286-371 | Applying a pending node evicts at most the first stored node, and never a connected one |
| `BucketRuns.StoredOrderIsRecency` | src/kbucket/bucket.rs:385-475 | In every run the stored list is a permutation of the nodes: disconnected ones by time of last status report, then connected ones by time of last status report |
| `BucketLaws.InsertDecides` | src/kbucket/bucket.rs:537-605 | Whether a node is known, refused by filter or limit, inserted, pending or turned away is decided by what is stored, and exactly an inserted node becomes known |
| `BucketLaws.InsertPends` | src/kbucket/bucket.rs:558-570 | A node waits for the place of the first stored one until the timeout; inserting the pending key empties the slot |
| `BucketLaws.ApplyDecides` | src/kbucket/bucket.rs:286-371 | A pending node comes in exactly when it is ready, filter and limit allow it, and there is room or the first stored node is disconnected; otherwise nothing is stored or lost |
| `BucketLaws.ReportDecides` | src/kbucket/bucket.rs:385-475 | A report sets state, and direction if given, of the node it names and of no other; the result says what changed, and a refused node is dropped |
| `BucketLaws.ReportElsewhere` | src/kbucket/bucket.rs:465-475 | A report on the pending node sets its status; on an unknown key it fails and changes nothing |
| `BucketLaws.ValueDecides` | src/kbucket/bucket.rs:482-514 | A new value replaces the old one of that node only, and the node is dropped exactly when the filter refuses it next to the others |
| `BucketLaws.RemoveDecides` | src/kbucket/bucket.rs:608-617 | The removed key leaves, every other node stays, and the pending node comes in exactly when it is ready and allowed |
| `BucketLaws.StatusIsLastReport` | src/kbucket/bucket.rs:374-617 | In every run a stored or pending node has the state, direction and value of the last operation that named its key |
| `Filters.IpFilter` | src/kbucket/filter.rs:70-96 | The loop with its early return accepts a record without an IPv4 address, and otherwise exactly when fewer than the limit of other records share its subnet; the limit zero is spelled out too |
| `Filters.ConflictsAreRivals` | src/kbucket/filter.rs:76-92 | What is counted are the other records whose address has the same first three octets |
| `Filters.RunSubnets` | src/kbucket/filter.rs:53-68 | In every run of a bucket whose keys are the records' ids, at most two nodes share a /24 subnet |
| `Filters.UpdateStatusSubnets` | src/kbucket/bucket.rs:385-475 | A status report never drops a stored node for the subnet filter |
| `KBucketsTables.KBucketsTable.InsertOrUpdate` | src/kbucket.rs:351-469 | The table of bucket objects does what the table of lists does; the arms marked unreachable are dead |
| `KBucketsTables.KBucketsTable.UpdateNode` | src/kbucket.rs:280-348 | Status and value updates on the bucket objects are those on the lists, with the outcome combined as documented |
| `KBucketsTables.KBucketsTable.UpdateNodeStatus` | src/kbucket.rs:258-275 | A status report reaches the one bucket the key belongs to |
| `KBucketsTables.KBucketsTable.Remove` | src/kbucket.rs:472-483 | The key leaves the one bucket it belongs to |
| `KBucketsTables.KBucketsTable.TakeAppliedPending` | src/kbucket.rs:561-563 | Applied pending nodes are taken in the order they were applied |
| `Tables.TableRunKeeps` | src/kbucket.rs:207-483 | In every run each stored or pending node lies in the bucket of its log2 distance from the local key, and every bucket keeps its own invariant |
| `Tables.EveryKeyHasOnePlace` | src/kbucket.rs:207-211 | In every run no key is stored twice anywhere and the local key is never stored |
| `Tables.OnlyOneNeighbour` | src/kbucket.rs:207-211 | Two keys at distance one from the local key are equal, so bucket zero holds at most one node |
| `TableLaws.InsertOrUpdateStores` | src/kbucket.rs:351-469 | Exactly an inserted or updated node is stored afterwards, as given, and all other keys are as before; the table filter is the reason for a refusal exactly when it is set, asked and says no, and then the key is not stored |
| `TableLaws.InsertOrUpdateSays` | src/kbucket.rs:383-463 | Every other outcome, from what the bucket of the key holds |
| `TableLaws.AllValuesTally` | src/kbucket.rs:374-377 | The table filter is shown the value of every stored node, as often as it is stored |
| `TableLaws.UpdateNodeStores` | src/kbucket.rs:280-348 | An update gives the node it names the new value and state, or drops it; the table filter is the reason exactly when it says no |
| `TableLaws.ReportStores` | src/kbucket.rs:258-275 | A report changes the status of the node it names and nothing else, or drops that node |
| `TableLaws.RemoveDrops` | src/kbucket.rs:472-483 | The key leaves, all other nodes stay, and the result says whether it was stored |
| `TableLaws.VisitRecords` | src/kbucket.rs:366-371 | A visit records exactly the node it let in and the one that made room |
| `TableLaws.StoredIsAnywhere` | src/kbucket.rs:207-211 | A node is stored somewhere exactly if it is stored where its key belongs |
| `Distances.NodesByDistances` | src/kbucket.rs:566-625 | The answer is the first nodes, at least one, of the requested buckets with every ready pending node applied, although the first pass stops early; it keeps to the limit exactly when that is positive or there is nothing to return |
| `Distances.OneDespiteLimit` | src/kbucket.rs:608-624 | A table holding one node, at a requested distance, yields it when no node is allowed |
| `Distances.AnswerIsComplete` | src/kbucket.rs:584-606 | Stopping the first pass once enough nodes are ready does not change the answer |
| `Distances.CollectAtDistance` | src/kbucket.rs:608-624 | Every node of the answer is at one of the requested distances |
| `Distances.CollectedInOrder` | src/kbucket.rs:608-624 | All nodes of each requested bucket are collected, one bucket after the other, in stored order |
| `Distances.InRangePicks` | src/kbucket.rs:573-582 | The distances looked up are exactly those requested between 1 and 256, in the order requested |
| `Distances.TakenFromFront` | src/kbucket.rs:608-624 | The answer is the front of what is collected: all of it, or as many as allowed, or one |
| `ClosestOrder.OrderCovers` | src/kbucket.rs:774-835 | The bucket walk visits every bucket exactly once, except bucket zero, which it visits twice exactly when bit zero of the distance is set or the distance is zero |
| `ClosestOrder.OrderIsByNearness` | src/kbucket.rs:774-835 | A bucket visited earlier holds only keys nearer to the target than one visited later |
| `ClosestOrder.ClosestBucketsIter.Next` | src/kbucket.rs:807-834 | Each call yields the next bucket of the walk until it is used up |
| `ClosestNodes.ClosestWalkIsScan` | src/kbucket.rs:774-874 | The nodes come in non-decreasing distance and are all nodes, those of bucket zero again if it is visited twice; they equal the sorted full scan exactly when bucket zero is visited once or empty |
| `ClosestNodes.WalkYieldsEveryNode` | src/kbucket.rs:774-874 | Every stored node comes exactly once, that of bucket zero twice if it is visited twice, and nothing else comes |
| `ClosestNodes.NeighbourComesTwice` | src/kbucket.rs:774-835 | A table holding one node, at distance one from the local key, yields that node twice on the walk towards it |
| `ClosestNodes.WalkAppliesPending` | src/kbucket.rs:847-873 | After the walk each bucket has had its pending node applied, if that was ready when the walk came to it |
| `ClosestNodes.Closest` | src/kbucket.rs:847-873 | Draining the iterator visits the buckets in the order of the walk, each at its own time, and yields the walk over the table as visited |
| `ActiveRequestLists.ActiveRequests.Insert` | src/handler/active_requests.rs:25-33 | Both indexes file the request, given a fresh nonce |
| `ActiveRequestLists.ActiveRequests.UpdatePacket` | src/handler/active_requests.rs:36-68 | The request in flight under the old nonce is found under the new one in both indexes; the unreachable arms are dead |
| `ActiveRequestLists.ActiveRequests.Get` | src/handler/active_requests.rs:70-72 | The requests filed under an address, in order |
| `ActiveRequestLists.ActiveRequests.RemoveByNonce` | src/handler/active_requests.rs:75-95 | The one request with that nonce leaves both indexes |
| `ActiveRequestLists.ActiveRequests.RemoveRequests` | src/handler/active_requests.rs:98-116 | All requests to an address leave both indexes |
| `ActiveRequestLists.ActiveRequests.RemoveRequest` | src/handler/active_requests.rs:119-141 | The first request of that id at that address leaves both indexes |
| `ActiveRequestLists.ActiveRequests.Expire` | src/handler/active_requests.rs:168-198 | A fired timer takes out the one request it belongs to; the unreachable arm is dead |
| `ActiveRequestLists.RemoveIndexed` | src/handler/active_requests.rs:149-165 | Each nonce leads to the address list that holds its request, and no address list is empty, after a removal |
| `ActiveRequestLists.UpdateIndexed` | src/handler/active_requests.rs:149-165 | The same after a packet is replaced |
| `ActiveRequestLists.DropIndexed` | src/handler/active_requests.rs:149-165 | The same after all requests to an address are dropped |
| `SessionHandlers.SessionHandler.Handle` | src/handler/mod.rs:321-358 | One turn of the loop over the indexed structures is one step of the machine, and keeps its invariant |
| `SessionHandlers.SessionHandler.SendRequest` | src/handler/mod.rs:464-532 | Refused, queued, failed or sent as the step machine says, with the queue per address in order |
| `SessionHandlers.SessionHandler.HandleChallenge` | src/handler/mod.rs:607-767 | A challenge is dropped, put back, failed or answered as the step machine says; the second nonce comparison cannot fail |
| `SessionHandlers.SessionHandler.HandleAuthMessage` | src/handler/mod.rs:787-915 | A handshake closes the challenge it answers, and opens, refuses or fails the session |
| `SessionHandlers.SessionHandler.SendPendingRequests` | src/handler/mod.rs:919-953 | The queue of an address is emptied and each request sent, queued again or reported |
| `SessionHandlers.SessionHandler.ReplayActiveRequests` | src/handler/mod.rs:958-1011 | With a session in place, replacing packets one by one, each found by its old nonce, is replaying the whole list except the skipped request; the arms for a missing session and a missing request are dead |
| `SessionHandlers.SessionHandler.HandleMessage` | src/handler/mod.rs:1015-1137 | Messages, with or without a session, as the step machine says |
| `SessionHandlers.SessionHandler.HandleResponse` | src/handler/mod.rs:1141-1206 | A response closes its request or, of several, leaves it open with one fewer to come; the counter never underflows |
| `SessionHandlers.SessionHandler.NewSession` | src/handler/mod.rs:1218-1242 | An existing session is replaced and its requests replayed, a new one flushes the queue |
| `SessionHandlers.SessionHandler.FailSession` | src/handler/mod.rs:1292-1345 | All queued and sent requests of the node are failed in order and the counters lowered |
| `SessionHandlers.SessionHandler.FailRequest` | src/handler/mod.rs:1263-1289 | The request is failed, then its node's session |
| `SessionHandlers.SessionHandler.HandleRequestTimeout` | src/handler/mod.rs:437-461 | Sent again while retries are left, failed after |
| `SessionHandlers.SessionHandler.SendChallenge` | src/handler/mod.rs:563-602 | Nothing happens when a challenge to the node is open; otherwise the socket's count grows by one, the challenge is sent and recorded as open |
| `SessionHandlers.SessionHandler.AddExpectedResponse` | src/handler/mod.rs:428-434 | The socket's count grows by one |
| `SessionHandlers.SessionHandler.RemoveExpectedResponse` | src/handler/mod.rs:416-426 | The socket's count drops by one and its entry goes at zero |
| `SessionHandlers.SessionHandler.IsAwaitingSession` | src/handler/mod.rs:1372-1383 | True exactly without a session and with a session-opening request in flight |
| `HandlerRuns.StepKeeps` | src/handler/mod.rs:321-358 | Every step keeps: the ledger of requests, the lower bound on expected responses, distinct nonces, one session opener per node, random packets only for session openers, and response counters of at least one |
| `HandlerRuns.RequestsAreConserved` | src/handler/mod.rs:437-532 | In every run each request of the application is in exactly one of in flight, queued and settled, and is settled once |
| `HandlerRuns.ReportsMatchRequests` | src/service.rs:655-660 | In every run a response is reported only for an issued and still open request, from the address it was sent to, and nothing follows the event that settles a request |
| `HandlerRuns.AwaitedPacketsPass` | src/socket/recv.rs:174-182 | In every run the expected count of a socket is at least its requests in flight plus its open challenges, so a packet that is awaited passes the filter |
| `HandlerRuns.OneOpenerPerNode` | src/handler/mod.rs:477-531 | In every run two requests that open a session with one node, or two random packets to it, are never outstanding together |
| `ServiceRuns.ResponsesMatch` | src/service.rs:643-660 | In every joint run of handler and service over their two channels, a response the service awaits comes from the address it sent the request to, so the mismatch branch is never taken |
| `HandlerSafety.SessionsNeedHandshake` | src/handler/mod.rs:1218-1242 | In every run a node we hold a session with completed a handshake: it answered our challenge with a valid record, or challenged a request of ours |
| `HandlerSafety.ResponsesNeedSession` | src/handler/mod.rs:1015-1206 | A step reports at most one response, and only when a packet from that node comes over a session or completes the handshake for one |
| `HandlerSafety.TimeoutsResend` | src/handler/mod.rs:437-461 | While retries are left, each timeout sends the same packet once more and nothing else changes |
| `HandlerSafety.TimeoutsRunOut` | src/handler/mod.rs:437-461 | After that nothing is sent, the failure is the next event, and nothing stays in flight to the node |
| `HandlerLaws.HandshakeOpensSession` | src/handler/mod.rs:1218-1242 | Completing a handshake stores a session, unless the message with it cannot be decrypted; sessions of other nodes stay unless the cache drops them |
| `HandlerLaws.MessageJoinsHandshake` | src/handler/mod.rs:787-873 | A handshake with a message is the handshake followed by that message over the new session |
| `HandlerLaws.NewSessionStores` | src/handler/mod.rs:1218-1242 | A new session is stored unless the cache drops it, and only dropped sessions go |
| `HandlerLaws.NewSessionSends` | src/handler/mod.rs:1218-1242 | A replaced session replays the requests in flight; a first one sends the whole queue in order, if nothing is in the way |
| `HandlerLaws.OtherSessionsStay` | src/handler/mod.rs:321-358 | No event touches the session of a node it does not concern, unless the cache drops it |
| `HandlerLaws.AuthIsAnnounced` | src/handler/mod.rs:820-833 | The new session is announced before anything else |
| `HandlerLaws.AuthIsRefused` | src/handler/mod.rs:787-915 | Unasked handshakes and bad signatures change nothing; malformed ones and invalid records fail the session |
| `HandlerLaws.MessageDecides` | src/handler/mod.rs:1015-1137 | Over a session a request reaches the application and a response its request; without one the sender is to be challenged; each other case as documented |
| `HandlerLaws.ResponseIsReported` | src/handler/mod.rs:1141-1206 | A response to a request in flight is reported once; it completes the request exactly if no more than one was awaited, and otherwise one fewer is awaited |
| `HandlerLaws.SendDecides` | src/handler/mod.rs:464-532 | A request to ourselves is refused, one behind a challenge or a session opener waits, any other is sent at once, as a random packet exactly without a session |
| `HandlerLaws.IssueDecides` | src/handler/mod.rs:464-532 | A request that cannot be sent or queued is reported with the reason |
| `HandlerLaws.QueueIsFlushed` | src/handler/mod.rs:919-953 | Over a session the whole queue of a node is sent in order and other queues stay |
| `HandlerLaws.ExpirySends` | src/handler/mod.rs:347-351 | When a challenge runs out the queue of its node is sent |
| `HandlerLaws.FailSessionFails` | src/handler/mod.rs:1292-1345 | Every queued and sent request of the node fails in order with the given error, its count drops by those sent, and no other request is touched |
| `HandlerLaws.ChallengeIsSent` | src/handler/mod.rs:563-602 | A challenge is sent, expected and recorded unless one is open |
| `HandlerLaws.ChallengesOpenAndClose` | src/handler/mod.rs:321-358 | A challenge opens when the application asks for it, closes by a handshake with a good signature or its timer, and otherwise not |
| `HandlerLaws.ChallengeIsAnswered` | src/handler/mod.rs:607-767 | A challenge to our request is answered at once by a handshake under the next nonce; the request stays in flight, marked |
| `HandlerLaws.RecordIsAskedFor` | src/handler/mod.rs:738-763 | Without a known record the request for it is left in flight, if nothing is in the way |
| `HandlerLaws.ChallengeIsRefused` | src/handler/mod.rs:607-672 | An unknown nonce changes nothing, another socket leaves all requests in flight, and a second challenge fails the request and its session |
| `HandlerLaws.ExpectedCounts` | src/handler/mod.rs:416-434 | Counts go up and down by one for one socket, and an entry goes at zero |
| `HandlerLaws.RunPositive` | src/handler/mod.rs:416-434 | In every run a socket has an entry exactly while it is expected |
| `Replays.ReplacementsPresent` | src/handler/active_requests.rs:36-44 | When its turn comes in a replay, the request to update is still found by its old nonce |
| `Replays.ReplaceAllReplays` | src/handler/mod.rs:958-1011 | Replacing packets one by one under fresh nonces equals replaying all at once |
| `HandlerLaws.ReplayReplaces` | src/handler/mod.rs:958-1011 | Exactly the requests to the node, but the skipped one and those that cannot be encrypted, get a new packet under the next nonce |
| `HandlerLaws.ReplaysAreSent` | src/handler/mod.rs:1005-1010 | Each new packet is sent, in order, and nothing else |
| `LookupQueries.LookupQuery.constructor` | src/query_pool/peers/closest.rs:93-123 | A lookup starts with the first peers given, each once, ordered by distance |
| `LookupQueries.LookupQuery.OnSuccess` | src/query_pool/peers/closest.rs:140-208 | The callback's loops do what the value-level step does, and keep the invariant; the waiting counter never underflows |
| `LookupQueries.LookupQuery.OnFailure` | src/query_pool/peers/closest.rs:219-239 | The same for failures, for both kinds of lookup |
| `LookupQueries.LookupQuery.Next` | src/query_pool/peers/closest.rs:244-322 | The pass over the peers with its early returns is the recursive scan, and keeps the invariant |
| `LookupQueries.LookupQuery.IntoResult` | src/query_pool/peers/closest.rs:325-337 | The first successful, matching peers |
| `LookupRuns.FinishedLookup` | src/query_pool/peers/closest.rs:140-337 | For every run: results in strictly increasing distance; a finished lookup has the wanted number and every closer known peer is among them, failed or unresponsive, or has fewer and no known peer is left to contact or wait for |
| `LookupLaws.HeardIsHeld` | src/query_pool/peers/closest.rs:93-208 | In every run a lookup holds exactly the ids given at the start and those in the answers it took |
| `LookupLaws.HeardIsAccounted` | src/query_pool/peers/closest.rs:140-337 | When a lookup finishes, every id it ever heard of is a result, farther than a full list of results, failed, unresponsive or not matching |
| `LookupLaws.SuccessJoins` | src/query_pool/peers/closest.rs:140-183 | An answer marks its peer as succeeded, adds exactly the named peers not known yet, not contacted, and leaves all others as they are; other answers change nothing |
| `LookupLaws.BeginAllLook` | src/query_pool/peers/closest.rs:93-123 | A lookup starts with exactly the peers given, none contacted |
| `LookupLaws.FailureMarks` | src/query_pool/peers/closest.rs:219-239 | A failure marks its peer and leaves all others as they are |
| `LookupLaws.NextContactsClosest` | src/query_pool/peers/closest.rs:244-322 | A poll contacts the closest peer not contacted yet while the stage allows it, gives up on overdue peers on the way, and never just waits while such a peer is left |
| `LookupLaws.NothingLeftIsDone` | src/query_pool/peers/closest.rs:311-321 | With nothing left to contact or wait for the lookup finishes |
| `LookupLaws.EnoughIsDone` | src/query_pool/peers/closest.rs:293-303 | With enough results among the closest peers, none of which may still answer, the lookup finishes |
| `LookupLaws.ResultsAreClosest` | src/query_pool/peers/closest.rs:325-337 | Results are succeeded and matching, and those left out are farther than a full list |
| `LookupLaws.ProgressCountsAnswers` | src/query_pool/peers/closest.rs:190-207 | In every run the counter is the number of answers since one last moved the lookup forward, and it stalls at the parallelism |
| `LookupRuns.FinishedIsFrozen` | src/query_pool/peers/predicate.rs:124-312 | No later callback changes a finished lookup |
| `LookupRuns.HandOutsAreBounded` | src/query_pool/peers/closest.rs:244-351 | For every run: no peer is handed out twice, hand-outs number at most the ids heard of, the waiting counter is exact and at most the larger limit |
| `LookupRuns.NextKeeps` | src/query_pool/peers/closest.rs:345-351 | After a hand-out no more peers are waited for than the lookup's stage allows: parallelism while iterating, the number of results while stalled |
| `LookupRuns.OccupiedIsKnown` | src/query_pool/peers/closest.rs:145-150 | Looking a peer up by distance finds that very peer, since distances tell keys apart |
| `LookupRuns.ProgressAsDocumented` | src/query_pool/peers/closest.rs:125-140 | The documented meaning of progress agrees with the code exactly under a condition on the returned peers: the last one decides |
| `LookupRuns.ProgressOverlooksCloser` | src/query_pool/peers/closest.rs:176-187 | A closer peer returned before a farther one counts as no progress |
| `RateLimits.FromQuota` | src/socket/filter/rate_limiter.rs:278-297 | Accepted exactly for positive tokens and a positive period within 64 bits; the token time is the period divided by the tokens, rounded down |
| `RateLimits.RateLimiter.Admit` | src/socket/filter/rate_limiter.rs:299-334 | Updating the stored times in place is the value-level decision |
| `RateLimits.RateLimiter.Retain` | src/socket/filter/rate_limiter.rs:337-341 | Keeps exactly the keys whose time is not before the limit |
| `RateLimits.LevelDecides` | src/socket/filter/rate_limiter.rs:299-334 | A request is too large, accepted or too soon by one inequality on the key's level, and only acceptance raises that level |
| `RateLimits.WindowBound` | src/socket/filter/rate_limiter.rs:299-334 | In every run the tokens a key gets between two grants cost at most the time between them plus one full bucket |
| `RateLimits.RefusalIsExact` | src/socket/filter/rate_limiter.rs:321-328 | In every run a request told to wait is refused at every time before and accepted at every time after, unless its key is granted something in between |
| `RateLimits.PruningIsInvisible` | src/socket/filter/rate_limiter.rs:337-341 | In every run pruning changes no answer |
| `RateLimits.PruneDrops` | src/socket/filter/rate_limiter.rs:337-341 | Exactly the keys full before the limit are dropped |
| `RateLimits.StoredTimesAreNear` | src/socket/filter/rate_limiter.rs:329-332 | In every run a stored time is at most one bucket after the key's last grant |
| `RateLimits.SumsFit` | src/socket/filter/rate_limiter.rs:308-332 | In every run no sum overflows 64 bits while the clock plus two buckets does not |
| `RateLimits.BurstsUpToQuota` | src/socket/filter/rate_limiter.rs:18-21 | Bursts up to the quota are always accepted; larger ones are refused exactly when the remainder of period by tokens is below the quotient |
| `RateLimits.BurstExample` | src/socket/filter/rate_limiter.rs:18-21 | A quota of three per five nanoseconds accepts a burst of five |
| `PacketCaches.PacketCache.Refresh` | src/socket/filter/cache.rs:58-84 | Dropping from the front and counting from the back, both stopping early |
| `PacketCaches.PacketCache.CacheInsert` | src/socket/filter/cache.rs:87-106 | Accepted exactly when the count of the last second is below the target |
| `PacketCaches.RateIsLimited` | src/socket/filter/cache.rs:93-106 | In every run no second sees more packets accepted than the target |
| `PacketCaches.AcceptedBelowTarget` | src/socket/filter/cache.rs:87-106 | In every run a packet is accepted exactly when fewer than the target were accepted in the second that ends with it |
| `PacketCaches.CounterIsExact` | src/socket/filter/cache.rs:58-84 | In every run the cache is in time order, holds exactly what its span covers, and counts exactly the last second |
| `PacketCaches.SizeIsLimited` | src/socket/filter/cache.rs:33-35 | In every run the cache holds at most the target for each second of its window |
| `LruCaches.LruTimeCache.Store` | src/lru_time_cache.rs:30-37 | The entry goes last and the first one leaves if there are too many |
| `LruCaches.LruTimeCache.ExpireOld` | src/lru_time_cache.rs:90-103 | Collecting expired keys up to the first live one and removing each is dropping the expired front |
| `LruCaches.LruTimeCache.Access` | src/lru_time_cache.rs:48-60 | Expires, then moves the entry last with a new time |
| `LruCaches.LruTimeCache.Inspect` | src/lru_time_cache.rs:65-75 | The value if live, nothing changed |
| `LruCaches.LruTimeCache.Count` | src/lru_time_cache.rs:78-81 | Expires, then the number of entries |
| `LruCaches.LruTimeCache.Discard` | src/lru_time_cache.rs:85-87 | The entry leaves |
| `LruCaches.RunKeeps` | src/lru_time_cache.rs:30-103 | In every run entries are within capacity, in order of time and in order of last touch |
| `LruCaches.ExpiryIsExact` | src/lru_time_cache.rs:90-103 | Stopping at the first live entry removes exactly the expired ones |
| `LruCaches.GetMutAgrees` | src/lru_time_cache.rs:48-60 | Agrees with the plain map of live bindings, before and after |
| `LruCaches.PeekAgrees` | src/lru_time_cache.rs:65-75 | Agrees with the plain map of live bindings |
| `LruCaches.LenAgrees` | src/lru_time_cache.rs:78-81 | The number of live bindings |
| `LruCaches.RemoveAgrees` | src/lru_time_cache.rs:85-87 | The binding leaves the plain map |
| `LruCaches.InsertAgrees` | src/lru_time_cache.rs:30-37 | The binding joins the plain map; if that is one too many, the key touched before all others leaves |
| `NodesServices.SplitNodes` | src/service.rs:1051-1097 | The loop with its running size splits as the recursive definition does |
| `NodesServices.SendNodesResponse` | src/service.rs:998-1113 | The chunks sent are the split of our own record, if asked for, and the records found at the other distances, without the requesting node |
| `NodesServices.NodesCollector.HandleNodes` | src/service.rs:643-777 | Stores or passes on what the filter keeps, closes the request or keeps it as it was, and touches no other request; a response from another address drops the request |
| `NodesRuns.DiscoveredIsRequested` | src/service.rs:643-777 | In every run every record passed on came from the node asked and is at a requested distance, or is its own record or came alone if that was requested; only senders of other records are banned |
| `NodesRuns.RequestedIsCollected` | src/service.rs:713-777 | Every record at a requested distance in a response to an open request is kept in order, and any other gets the sender banned |
| `NodesResponses.AcceptKeeps` | src/service.rs:698-728 | The filter keeps, in order, exactly the records at requested distances and bans exactly for dropping one; the own-record case is spelled out |
| `NodesResponses.SentIs` | src/service.rs:1003-1030 | Our own record exactly if distance zero is asked for, then exactly the records found at other distances but the requesting node's, in order |
| `NodesResponses.SplitCovers` | src/service.rs:1051-1097 | The chunks put end to end are the list |
| `NodesResponses.SplitFits` | src/service.rs:1060-1085 | Every chunk is below the size limit if every record is |
| `NodesResponses.SplitCounts` | src/service.rs:1051-1097 | Records of legal size give non-empty chunks of three or more records, except the last |
| `NodesResponses.SplitIsGreedy` | src/service.rs:1060-1085 | A new chunk is opened only for a record that does not fit into the last |
| `NodesResponses.PartlyDelivered` | src/handler/mod.rs:1150-1184 | While chunks are missing both the handler and the service wait, and their counters add up to one more than the total |
| `NodesResponses.SplitAndReassemble` | src/service.rs:730-777 | Whatever the order of arrival, handler and service close the request with the last chunk and exactly the records sent are passed on, once |
| `NodesResponses.SentIsAccepted` | src/service.rs:695-728 | The chunks sent pass the other side's distance filter exactly when distance zero was not asked for together with others |
| `NodesResponses.OwnRecordIsRefused` | src/service.rs:695-728 | Asked for distances zero and one, a node with an empty table sends its own record alone, and the requesting side refuses it |
| `NodesResponses.FindNodeExchange` | src/service.rs:643-1113 | A whole exchange over any table: at most 15 responses, none filtered, closed on both sides at once, discovered once |
| `PacketCodecs.KeystreamCipher.ApplyKeystream` | src/packet/mod.rs:402-418 | Masks the buffer in place from where the stream was left |
| `PacketCodecs.EncodePacket` | src/packet/mod.rs:392-418 | The bytes of the value-level encoding |
| `PacketCodecs.DecodePacket` | src/packet/mod.rs:423-519 | The packet, authenticated data or error of the value-level decoding |
| `Packets.ApplyInTwo` | src/packet/mod.rs:446-489 | Masking static header and authentication data in two passes is masking them in one |
| `Packets.XorByteAt` | src/packet/mod.rs:402-418 | A masked byte has exactly those bits set in which the clear byte and the stream differ |
| `Packets.MaskIsRecovered` | src/packet/mod.rs:402-418 | The stream can be read off a clear byte and its masked form |
| `Packets.WireLayout` | src/packet/mod.rs:102-418 | Where every field of a packet lies on the wire, under the mask or in clear, for each kind |
| `Packets.ToBeAt` | src/packet/mod.rs:111-113 | Each byte of a number has its weight, the most significant first |
| `Packets.RefusalReasons` | src/packet/mod.rs:423-519 | Which size, name, version, declared size or message makes decoding fail, and with which error |
| `Packets.KindReasons` | src/packet/mod.rs:202-277 | Which authentication data each flag admits, and the error otherwise |
| `Packets.KindRoundTrip` | src/packet/mod.rs:158-278 | Authentication data decodes to what was encoded exactly when signature and key fit their size bytes and the record survives its own encoding |
| `Packets.PacketRoundTrip` | src/packet/mod.rs:385-519 | Decoding for the same node returns the packet and exactly its authenticated data if and only if the packet fits, a WHOAREYOU packet has no message, and its authentication data is encodable |
| `Packets.DecodedIsEncoded` | src/packet/mod.rs:423-519 | An accepted datagram is the encoding of what it decodes to, and its authenticated data that packet's, if and only if the record in it, if any, encodes to the bytes it came as |
| `Packets.ChallengeDataSize` | src/handler/mod.rs:367-370 | A decoded WHOAREYOU packet has 63 bytes of authenticated data, so the conversion to challenge data cannot fail |

## Left out

- UDP sockets, tasks and the API wrapper, and channels except those between handler and service (`ServiceRuns`); of the receiver only the lookup of expected responses is modelled, as `Permitted`.
- Cryptography, key rotation and message counters inside a session; a session is only whether it waits for a record.
- The byte encoding of messages and node records, which other libraries provide; `Packets.PacketRoundTrip` states what it needs of the record encoding.
- Answering requests of other nodes over sessions and one-time sessions in the handler; they touch no request, challenge or counter.
- The service beyond FINDNODE: PING and TALK, address voting, query scheduling, banning beyond the flag, and partial results passed on when a request fails.
- Ban lists, the packet filter's policy and the limiter's three-way combination.
- The table-wide subnet limit; the table's filter is an arbitrary predicate here.
- Exact expected-response counts, eventual sending of queued requests, and termination of lookups by the clock alone.
- SessionHandlers.SessionHandler.Handle: sessions may be evicted between steps or when one is inserted, by any choice, instead of by the session cache's own order.
- ClosestNodes.Closest: models the iterator drained to its end rather than call by call.
- RequestCall setters are updates of a record value, since a call is moved out of and back into the indexes.
- Filters.RunSubnets: holds for runs in which every node's key is its record's id, as the service inserts them.
- NodesResponses.FindNodeExchange: needs both nodes to use the same limit on nodes per response, at most 45, and records of at most 300 bytes.
- PacketCaches.RateIsLimited: a second is open at its start; two packets exactly one second apart fall into different seconds.
- RateLimits.RateLimiter.Admit: 64-bit wrap-around is not modelled; `RateLimits.SumsFit` says when it cannot occur.
