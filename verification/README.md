# A model of out-of-order Raft

This project models the state machines of a Raft implementation that replicates, stores and commits log entries out of
order, and proves what they keep over whole runs. Every public operation that runs under a mutex is one atomic step;
where the code lets go of its mutex in the middle (`elect_self`, `handle_prevote`, `handle_request_vote`, `commit_at`,
`clear_memory_logs`, a timer callback), the operation is split into separate steps that anything may come between.

The modules follow the program:

- `Ballots`, `Nodes`, `Elections`, `ElectionHosts`: ballots with position hints, one node's part of the election protocol
  as a class whose methods carry out the protocol's steps, and the protocol over any number of nodes, with messages
  lost, duplicated and reordered and processes that die and come back from the stored (term, vote) pair. The main
  results are election safety, that a known leader is always the one winner of its term, that the branch for a second
  leader is dead, and that `become_leader`'s state check never fails, because only a node with company can stand.
- `CommitSpec`, `BallotBoxes`, `ClosureQueues`, `CommitPipelines`, `Overtaking`, `CommitRuns`, `AckWindows`,
  `Replicators`, `CommitSoundness`, `LeaderHosts`: one leadership period. The ballot box equals a specification that knows only tasks and
  acknowledgements; its state does not depend on how these were ordered or grouped; closures are handed out once each,
  however late notifications are delivered, as long as none overtakes another; what is committed is in the logs of a quorum.
- `Bits`, `DependencyTrackers`, `LogWindows`, `Conflicts`, `LogManagers`, `AppendCaches`, `Followers`, `Replays`: the
  leader's dependency words, the follower's bitmap and deque with gaps as one map of received entries, the cache, dependency
  closure over whole runs, and why the words are enough for replaying writes.
- `RecordFormat`, `SegmentFiles`, `Segments`, `SegmentChains`, `SegmentStorages`: the binary record
  format, recovery of a file cut at any byte, gap counting, and a chain of rotating segments as one map.
- `RepeatedTimers`: the timer's four flags, identifiers and callbacks refine a four-phase protocol.

Objects that the program updates in place are classes; each carries a ghost value it stands for (a map, a set of
acknowledgements, a journal, a protocol state) and its methods say how that value changes. The reasoning is done on
plain values, in static methods and lemmas.

Where a property of the code holds only on part of its inputs, the exact condition is proved:

- `_last_committed_index` depends on how acknowledgements were grouped, unless leadership starts with everything before
  its reset point committed or no quorum takes two peers (`LastConfluentIff`).
- A replicator whose oldest request in flight comes back without success does not go back for its entries, because the
  request's flag is cleared before the next index is reset, unless a refusal says that the follower's log ends before
  them or sending would resume right after the first of them (`NothingSkippedIff`). A reply that reports more than was
  ever sent makes it look into an empty deque (`AckWindow`, `MeetLongerLog`).
- A notification is handled in range and hands out closures once each exactly if its list does not start before the
  queue's first index (`Deliver`). That holds if notifications are delivered in the order in which their index was loaded
  (`LoadOrderSuffices`); but loading and handing over are two steps without a mutex, and one that is overtaken between
  them is told a second time or indexed out of range (`Overtaken`).
- A group of one never has a leader, because standing takes the pre-vote of another member (`OnlyTheseStand`).
- The term in memory can go back, because requests go out and the node stands before the vote is stored; no vote was
  given in such a term (`TermGoesBack`, `LostTermIsUnspent`).
- The dependency test lets entries pass unseen exactly when they lie too far behind the greatest index
  (`PassingMeansReceivedIff`, `UnseenBreaksClosure`), and a request released from the cache stays acceptable exactly when
  its word names nothing beyond the look-back (`ReleaseIsStableIff`).
- Words of 64 bits suffice exactly up to a look-back of 63 (`SufficientIff`, `NothingLostIff`).
- An out-of-order request that meets a term mismatch drops earlier entries that were absent (`AllReceivedIff`,
  `MismatchDropsAbsent`).
- Resolving a conflict with the contiguous log truncates the deque but not the greatest index and the bitmap. It follows
  an empty slot if anything was received out of order and places the new entries out of range unless at least as many
  entries stay in memory as are dropped; memory stands for the log afterwards exactly if it is as many and the new
  entries replace all of them (`Resolve`, `AppendEntries`, `LoseToConflict`).
- A cached request released by a bitmap and a greatest index that were read apart stays acceptable exactly if its word
  names nothing (`TornReleaseIsStableIff`).
- A request that reaches beyond the greatest index is written over what it overlaps without comparing terms, even over
  what was applied (`AppliedTermsKeptIff`, `OverlapUnchecked`).
- A segment file that truncation has taken something from can never be loaded again: the loop does not get over the
  zeroed term (`Truncate`, `StruckHangs`). A closed segment that is cut back never closes again (`CutSettledIff`).
- `truncate_suffix` beyond the last index makes the storage lose track of where its last segment ends (`TruncateSuffix`).
- Appending an index twice makes a segment with a gap look full (`FullfilledWithRepeats`, `RepeatLooksFull`), and a
  record that arrives again is refused exactly if its segment is closed (`AppendOne`, `RepeatedRecord`). A loaded segment
  has forgotten its counter (`LoadedIsNotFull`).

## Model

| member | source | states |
|---|---|---|
| `Ballots.Ballot.Grant` | cpp/ballot.cc:30-61 | For every hint, right or wrong, and every repetition, the ballot is the one of the granters so far plus this peer; the returned hint is the peer's position or -1 |
| `Ballots.InitBallot` | cpp/ballot.cc:6-28 | A new ballot is the ballot nobody has granted, over the configuration and the old one if there is one |
| `Ballots.FindPeer` | cpp/ballot.h:36-50 | The position found is the peer's whatever the hint; the end only if the peer is absent |
| `Ballots.GrantIn` | cpp/ballot.cc:32-41 | Within one configuration the remaining quorum is n/2+1 minus the distinct members granted |
| `Ballots.GrantedIffQuorum` | cpp/ballot.h:26 | A ballot is granted exactly when its granters are a majority of the configuration, and of the old one when joint |
| `Ballots.MajoritiesMeet` | cpp/ballot.cc:16-26 | Any two majorities of one configuration share a member |
| `Ballots.GrantedBallotsMeet` | cpp/ballot.cc:6-61 | Any two granted ballots that share a configuration share a granting peer |
| `Nodes.Node.constructor` | cpp/node.cc:1286-1319 | A process starts as follower with the stored term and vote and without leader or counted votes |
| `Nodes.Node.StepDown` | cpp/node.cc:1341-1369 | A higher term is stored with an empty vote; an equal term keeps the vote; leader and role are reset either way |
| `Nodes.Node.PreVote` | cpp/node.cc:522-562 | A node whose port lets it asks for pre-votes with a new ballot that it has granted itself; others do nothing |
| `Nodes.Node.HandlePreVoteResponse` | cpp/node.cc:574-616 | Only a follower in the same term counts a pre-vote; a higher term makes it step down, and a quorum of pre-votes makes it stand |
| `Nodes.Node.BeginElect` | cpp/node.cc:618-652 | Standing raises the term and votes for oneself in memory only, with an empty ballot; a node outside the group does nothing |
| `Nodes.Node.FinishElect` | cpp/node.cc:653-698 | Goes on only in the same term; stores and counts the own vote; leads if that is a quorum; reports when the state check fails |
| `Nodes.Node.GrantVote` | cpp/node.cc:694-697 | Counting a vote leads to leadership exactly on a quorum, and to a failed check exactly on a quorum outside candidacy |
| `Nodes.Node.ArriveVote` | cpp/node.cc:441-474 | A higher term is adopted before the mutex is let go; a stale request is answered at once |
| `Nodes.Node.DecideVote` | cpp/node.cc:475-503 | A vote is given and stored exactly in the same term, to a candidate whose log is up to date, when none was given, and then it is granted; otherwise nothing changes, and the answer is granted exactly if the stored vote is for the candidate |
| `Nodes.Node.HandleRequestVoteResponse` | cpp/node.cc:701-740 | Only a candidate in the same term counts a vote, and it leads exactly once the votes are a quorum; a higher term in the answer makes it a follower in that term with an empty vote on disk |
| `Nodes.Node.CheckStepDown` | cpp/node.cc:1126-1145 | The sender becomes leader unless one is known in the term |
| `Nodes.Node.HandleAppendEntries` | cpp/node.cc:778-832 | Stale requests change nothing; otherwise the node follows the sender in its term, or, where another leader is known, leaves the term without a leader and reports the conflict |
| `Nodes.Node.HandleStepdownTimeout` | cpp/node.cc:1204-1250 | A leader in the joint stage steps down exactly when itself and the peers it recently sent to are no majority of the old configuration; outside that stage it never does |
| `Nodes.CountAlive` | cpp/node.cc:1224-1240 | The loop counts the members that are alive, the node itself among them |
| `Elections.ElectionSafety` | cpp/node.cc:441-740 | In every run, two nodes that lead in the same term, at whatever times, are the same node |
| `Elections.LeaderIsWinner` | cpp/node.cc:1371-1378 | A known leader is on record as winner of its term, and no two nodes ever name different ones |
| `Elections.NoConflict` | cpp/node.cc:820-832 | In no run does a request find another leader known in its term |
| `Elections.TermsGrow` | cpp/node.cc:1362-1367 | The stored term never decreases, and the term in memory not while its process lives |
| `Elections.TermGoesBack` | cpp/node.cc:640-661 | A run in which the term in memory decreases: a timer expires, the other peer grants the pre-vote, and the node dies between standing and storing |
| `Elections.LostTermIsUnspent` | cpp/node.cc:692-694 | A restart loses a term exactly when memory is ahead of the disk, and no vote of a lost term was ever given |
| `Elections.CheckHolds` | cpp/node.cc:742-744 | In no run of any group does become_leader's state check fail |
| `Elections.OnlyTheseStand` | cpp/node.cc:522-561 | In every run, whoever stands or leads has a port that lets it ask for pre-votes and is no quorum by itself |
| `Elections.PairLeads` | cpp/node.cc:574-740 | A run in which one of two peers that are a quorum becomes leader, from its election timeout on |
| `Elections.PairFollows` | cpp/node.cc:778-832 | The run goes on: the other peer follows the leader once a request of its arrives |
| `Elections.VotesAreGrounded` | cpp/node.cc:484-496 | In every run, each vote on record for another peer goes back to a step of its voter that found the candidate's log up to date, unless it was stored before the run |
| `Elections.NextMet` | cpp/node.cc:574-616 | Every step keeps the invariant that pre-votes come from other members, that whoever stands, has stood or leads is no quorum by itself, and that a node that waits for pre-votes has a context to count them in |
| `Elections.PreVoteStaleIff` | cpp/node.cc:407-421 | A pre-vote asks for the term after the candidate's, and is refused at once exactly by a node beyond that term |
| `Elections.NextOk` | cpp/raft_meta.cc:52-71 | Every step keeps the invariant that votes given are on disk while their term is the latest and that only the own vote can be ahead of the disk |
| `Elections.OneWinner` | cpp/ballot.cc:30-61 | Two quorums of votes on record for one term are for the same candidate |
| `ElectionHosts.Perform` | cpp/node.cc:392-832 | Every step of the protocol is what a node's methods do: from the state the protocol gives it, a node carrying out an action ends in the state of the next step and sends exactly what that step adds to the network, pre-votes, votes and AppendEntries; a process that dies is replaced by one started from the stored pair |
| `BallotBoxes.BallotBox.CommitAt` | cpp/ballot_box.cc:47-107 | Up to where the mutex is let go: on an ascending batch the box becomes the one its acknowledgements determine; the list holds exactly the newly committed indexes; error codes and the last committed index are as in the code |
| `BallotBoxes.BallotBox.AppendPendingTask` | cpp/ballot_box.cc:191-206 | A task is proposed with no acknowledgement and an unset flag |
| `BallotBoxes.BallotBox.ResetPendingIndex` | cpp/ballot_box.cc:125-138 | A fresh leadership starts at the given index |
| `BallotBoxes.BallotBox.SetLastCommittedIndex` | cpp/ballot_box.cc:140-159 | A follower's commit index only moves forward and is reported when it does; a leader refuses |
| `BallotBoxes.BallotBox.OoCommittedIndexes` | cpp/ballot_box.h:58-69 | Lists exactly the committed indexes from the pending index on, ascending |
| `BallotBoxes.TakeBatch` | cpp/ballot_box.cc:63-107 | Granting and popping keep the correspondence with the specification, and the front flag is never left set |
| `BallotBoxes.PopCommitted` | cpp/ballot_box.cc:88-94 | Pops exactly the leading committed entries of both queues |
| `CommitRuns.RunSpec` | cpp/ballot_box.cc:47-112 | After any run an index is acknowledged by a peer exactly if some batch in range by then named it |
| `CommitRuns.Confluence` | cpp/ballot_box.cc:47-112 | Runs with the same tasks and the same accepted acknowledgements end in the same specification, whatever their order, grouping and repetition |
| `CommitRuns.SpecShowsAcks` | cpp/ballot_box.cc:47-112 | Conversely the final specification determines the accepted acknowledgements |
| `CommitRuns.BoxDetermined` | cpp/ballot_box.cc:75-107 | The specification determines pending index, ballots and flags, the front flag is unset, and so is the last committed index once anything was popped |
| `CommitRuns.CommitAtIsStep` | cpp/ballot_box.cc:75-107 | What commit_at promises is one step of the run specification |
| `CommitRuns.LastOfRun` | cpp/ballot_box.cc:96-106 | The last committed index follows the pending index, or is at one of two starting values |
| `CommitRuns.OrderShows` | cpp/ballot_box.cc:96-106 | For every configuration whose quorums take two peers, two runs with the same acknowledgements and different last committed indexes |
| `CommitRuns.LastConfluentIff` | cpp/ballot_box.cc:96-106 | In a leadership with one configuration the last committed index is order-independent exactly if everything before the reset point is committed at the start or no quorum takes two peers |
| `ClosureQueues.ClosureQueue.PopClosureUntil` | cpp/closure_queue.cc:47-105 | Marks the notified slots, hands out the newly marked ones once with their own index, and drops the done front; a list wholly behind the queue is told as it is and one beyond it refused; the deques are indexed in range exactly in these cases or if the list starts in the queue and the contiguous index ends in it |
| `ClosureQueues.ClosureQueue.AppendPendingClosure` | cpp/closure_queue.cc:41-45 | A closure waits at the next index with an unset flag |
| `ClosureQueues.ClosureQueue.ResetFirstIndex` | cpp/closure_queue.cc:35-39 | An empty queue starts at the given index |
| `CommitPipelines.OnCommitted` | cpp/fsm_caller.cc:175-184 | Keeps exactly the out-of-order indexes beyond the commit index |
| `CommitPipelines.CommitPipeline.CommitAt` | cpp/ballot_box.cc:75-107 | What an acknowledgement commits is still to be told when the mutex is let go: everything committed is known to the queue, on its way, or with a call that has not sent its message |
| `CommitPipelines.CommitPipeline.Load` | cpp/ballot_box.cc:107-110 | Calls that let go of the mutex may load the last committed index in any order; each keeps of its list exactly what lies beyond it |
| `CommitPipelines.CommitPipeline.Enqueue` | cpp/fsm_caller.cc:175-184 | Calls that have loaded the index may hand their messages over in any order; nothing committed is lost and nothing else is told |
| `CommitPipelines.CommitPipeline.Deliver` | cpp/closure_queue.cc:47-105 | Whatever message is next, it is handled in range and hands out closures once each, with their own indexes, exactly if its list does not start before the queue's first index; then these are the indexes it tells about that were not handed out; otherwise, in range, indexes handed out before are told again without closures |
| `CommitPipelines.Lockstep` | cpp/closure_queue.cc:47-105 | With nothing unsent and nothing on its way, the queue's first index and flags equal the box's pending index and flags, and exactly the closures of committed indexes are handed out |
| `CommitPipelines.LoadOrderSuffices` | cpp/ballot_box.cc:107-110 | A message whose index was loaded after those of all messages delivered so far does not start before the queue's first index |
| `Overtaking.Overtaken` | cpp/ballot_box.cc:107-110 | The failing runs: two calls load in one order and hand over in the other; index 2 is told a second time, or the deque is indexed before its start |
| `CommitPipelines.CommitPipeline.AppendPendingTask` | cpp/ballot_box.cc:191-206 | Box and queue grow together |
| `CommitPipelines.CommitPipeline.ResetPendingIndex` | cpp/ballot_box.cc:125-138 | Box and queue start together |
| `CommitPipelines.DeliveredOnce` | cpp/closure_queue.cc:47-105 | The closures handed out at a delivery are those of the indexes that become known, none of them handed out before |
| `CommitPipelines.Notifies` | cpp/fsm_caller.cc:175-184 | What is listed and loaded, filtered, speaks of committed indexes only and reaches to the end of the contiguous ones |
| `Replicators.Replicator.OnRpcReturned` | cpp/replicator.cc:344-556 | On success the indexes for commit_at are strictly ascending, never given before, and exactly those of the request or below the reported contiguous index that were not given yet, and the request and the leading ones that the window has passed leave the air; the deque of flags is looked at out of range exactly if the reported index lies beyond the window; without success all is forgotten and sending resumes at the oldest other request, or stays where it was if there is none, before a refusal moves it back and probes |
| `Replicators.Replicator.SendEntries` | cpp/replicator.cc:688-745 | Sends exactly when not blocked or saturated and something is prepared; the window covers what was sent |
| `Replicators.Replicator.SendEmptyEntries` | cpp/replicator.cc:610-651 | A probe is in flight with no entries |
| `Replicators.Replicator.ResetNextIndex` | cpp/replicator.cc:978-994 | Nothing stays in flight and sending resumes at the first request whose flag is not cleared, whatever the flags |
| `AckWindows.NothingSkippedIff` | cpp/replicator.cc:379-383 | After an unsuccessful reply no entry that was in flight is skipped exactly if the answered request was not the oldest, held no entries, or is refused by a follower whose log ends before it, or while sending would resume right after its first entry |
| `AckWindows.RefusalGoesBack` | cpp/replicator.cc:436-452 | A refused request of one entry, with the next one right behind it, is never skipped |
| `AckWindows.LostRequestIsSkipped` | cpp/replicator.cc:978-986 | The input: entry 5 alone in flight; a failed call leaves the next index at 6, a refusal at 5 |
| `Replicators.LoseOnlyRequest` | cpp/replicator.cc:391-409 | A replicator whose only request fails is left with nothing in flight and its next index beyond the entry, which was never acknowledged |
| `Replicators.MeetLongerLog` | cpp/replicator.cc:504-510 | The input: one entry sent to a follower that reports a longer log than was ever sent |
| `AckWindows.AckWindow` | cpp/replicator.cc:498-534 | The window always flags exactly what was given and never starts with a flagged index; the deque is looked at out of range exactly if the reported contiguous index lies beyond the window |
| `AckWindows.Land` | cpp/replicator.cc:541-556 | Removing the answered request and the leading ones that the window has passed keeps the flying size equal to the sum of sizes and the two deques equally long |
| `AckWindows.PassedIff` | cpp/replicator.cc:546-556 | A request before the end of the window is passed exactly if everything it held was given |
| `CommitSoundness.CommitSound` | cpp/ballot_box.cc:47-112 | In every run of a leadership each index from the reset point to the last committed one, and each committed out of order, is in the logs of a quorum of its own configuration, jointly with the old one |
| `CommitSoundness.LeaderIndexes` | cpp/node.cc:60-75 | The leader acknowledges exactly the indexes it stored |
| `CommitSoundness.StepBacked` | cpp/replicator.cc:481-534 | Every acknowledgement counted is backed by the peer's log, given honest replies |
| `LeaderHosts.OnReply` | cpp/replicator.cc:498-534 | A reply handled by a replicator and given to the ballot box's commit_at is a step of the leadership, and one that gives nothing leaves it where it is |
| `LeaderHosts.OnStable` | cpp/node.cc:60-75 | The leader's own stable entries given to commit_at are a step of the leadership |
| `LeaderHosts.BecomeLeader` | cpp/node.cc:742-775 | A leadership starts in a fresh state of the run, with a box that counts from the end of the log and a replicator for exactly every other peer |
| `LeaderHosts.FollowersAreTrue` | cpp/node.cc:130-165 | A follower that starts empty and meets no mismatch claims nothing in a successful reply that is not so, however late the reply is formed |
| `DependencyTrackers.DependencyTracker.CheckDependency` | cpp/node.cc:1048-1064 | Bit b of the n-th word is set exactly if 1 <= b <= min(n, look-back) and the id b places earlier is equal, for b below 64 |
| `DependencyTrackers.NothingLostIff` | cpp/node.cc:1048-1064 | No dependency is lost from 64 bits exactly if the look-back is at most 63 |
| `LogManagers.LogManager.AppendEntries` | cpp/log_manager.cc:463-524 | The log becomes the old one with the written entries over it, or over its part before a conflict. A write comes to its end exactly if every entry has a slot in the deque and a bit in the bitmap as they are then, and in that case each is in its slot with its bit set; last, maximum, deque and bitmap stand for the log exactly then, or if a conflict fills exactly what it drops |
| `Conflicts.Resolve` | cpp/log_manager.cc:276-301 | A conflict ends in the fatal check, in an empty slot followed, out of range, or done, each exactly under a condition on the indexes; memory stands for the log asked for exactly if as many entries stay in memory as are dropped and all of these are replaced |
| `Conflicts.CutWindow` | cpp/log_manager.cc:284-292 | Truncation follows an empty slot exactly if something was received out of order; otherwise the deque ends at the kept index or is empty |
| `LogManagers.LoseToConflict` | cpp/log_manager.cc:505-520 | The input: three entries in memory and another one in place of the third |
| `LogManagers.ConflictIsOverlay` | cpp/log_manager.cc:384-391 | A conflict that fills what it drops leaves the log as if its entries had been written over it |
| `LogManagers.InOrderRun` | cpp/log_manager.cc:322-329 | In every run of in-order requests from an empty log the log is contiguous: a request that would leave a gap is refused |
| `LogManagers.AppliedTermsKeptIff` | cpp/log_manager.cc:349-391 | What was applied keeps its terms exactly if a request does not reach beyond the greatest index, or agrees with it |
| `LogManagers.OverlapUnchecked` | cpp/log_manager.cc:349-366 | The input: entry 2 was applied, and entries 2 and 3 of another term are written over it without comparison |
| `LogManagers.AppliedRequestIsIgnored` | cpp/log_manager.cc:330-337 | A request for nothing but what was applied changes nothing |
| `LogManagers.LogManager.CheckAndResolveConflict` | cpp/log_manager.cc:303-424 | What becomes of a request: numbered, refused, ignored, written in full or from the first mismatch on, or in conflict with the contiguous log with the index it is truncated after |
| `LogManagers.LogManager.CheckDependency` | cpp/log_manager.cc:436-461 | Passes exactly if every index named by the word was received and is in the bitmap's reach, or the entry is too far behind |
| `LogManagers.LogManager.ClearMemoryLogs` | cpp/log_manager.cc:95-116 | With nothing between its rounds, it drops exactly the leading entries not greater than the id, never an empty slot, and keeps the window invariant |
| `LogManagers.LogManager.ClearNextBatch` | cpp/log_manager.cc:98-111 | One round under the mutex drops only leading entries not greater than the id, at most 256, keeps the window invariant, and is the last one exactly if it is not full, with no such entry left at the front |
| `LogManagers.ClearableIff` | cpp/log_manager.cc:103-107 | Entries are compared by term first and by index then, and an empty slot is never cleared |
| `LogManagers.LogManager.GetEntryFromMemory` | cpp/log_manager.cc:744-772 | The entry received at the index, if the deque reaches back to it |
| `LogManagers.LogManager.UnsafeGetTerm` | cpp/log_manager.cc:774-791 | The term of the entry received at the index, 0 if none, in memory or on disk |
| `LogManagers.AllReceivedIff` | cpp/log_manager.cc:372-412 | An overlapping out-of-order request leaves all its entries received exactly if it meets no mismatch or had all entries before it |
| `LogManagers.MismatchDropsAbsent` | cpp/log_manager.cc:372-412 | The input: entry 2 absent and entry 3 there from another term; of a request for both only entry 3 is kept |
| `LogManagers.SingleIsReceived` | cpp/replicator.cc:705-727 | A request of one entry, as the replicator sends them, never loses it |
| `LogWindows.BoundsUnique` | cpp/log_manager.cc:522-524 | The received indexes determine the contiguous and the greatest index |
| `LogWindows.EndsInEntry` | cpp/log_manager.cc:747-751 | A non-empty deque ends in the entry with the greatest index |
| `LogWindows.GrowTo` | cpp/log_manager.cc:339-370 | Growing the window over a gap keeps deque and bitmap equal to the received map |
| `LogWindows.PlaceAll` | cpp/log_manager.cc:512-520 | Filling slots keeps deque and bitmap equal to the received map |
| `LogWindows.Advance` | cpp/log_manager.cc:522-524 | The contiguous index ends at the longest received prefix |
| `AppendCaches.BuildWord` | cpp/replicator.cc:713-727 | A request's word names an index exactly if one of its entries does, as far as 64 bits reach |
| `AppendCaches.AppendEntriesCache.Store` | cpp/node.cc:1562-1620 | A known previous index is not stored again; otherwise the request is inserted in order and, in a full cache, the one furthest ahead makes room |
| `AppendCaches.AppendEntriesCache.ProcessRunnableRpcs` | cpp/node.cc:1662-1712 | Exactly the requests whose dependencies were all received leave, in order, and the others stay |
| `AppendCaches.ReleaseIsStableIff` | cpp/node.cc:1676-1686 | A released request passes the dependency test then and after any appends, exactly if its word names nothing beyond the look-back |
| `AppendCaches.TornBitmap` | cpp/node.cc:161-165 | A bitmap and a greatest index read apart tell of a log moved by the distance between the two reads |
| `AppendCaches.TornReleaseIsStableIff` | cpp/node.cc:161-165 | A request released by a bitmap and a greatest index read apart, in either order, passes the dependency test from then on exactly if its word names nothing |
| `Replays.LeaderWordsStable` | cpp/node.cc:973-975 | The leader's own words are released for good |
| `Followers.Follower.Handle` | cpp/node.cc:857-980 | A request is accepted exactly if it passes the test; then it is written and, where memory still stands for the log, the cache releases what can run; otherwise it is cached or rejected |
| `Followers.HandleStep` | cpp/node.cc:857-980 | Handling a request is a step of the run about which closure is proved, exactly where memory still stands for the log afterwards, and what the cache lets go may be handled as coming from it |
| `Followers.RepliesAreTrue` | cpp/node.cc:130-165 | In every run the entries of an accepted request that met no mismatch, and everything up to the contiguous index reported later, are in the log |
| `Followers.DependencyClosure` | cpp/node.cc:857-980 | In every run in which nothing passes unseen and no request loses a bit of an entry's word, every index named by the word of an entry in the log is in the log |
| `Followers.PassingMeansReceivedIff` | cpp/log_manager.cc:447-452 | Passing means that everything named was received exactly if the entry is ahead of the greatest index or less than 1024 minus the look-back behind it |
| `Followers.UnseenBreaksClosure` | cpp/log_manager.cc:449-452 | Two acceptances that lose closure out of reach, and one index nearer the second is refused |
| `Replays.WordsSuffice` | cpp/node.cc:1048-1064 | For a look-back up to 63, replaying any acceptance order gives the store of replaying the same entries in index order |
| `Replays.ShortcutUnreached` | cpp/log_manager.cc:449-452 | In such an order the test never lets an entry pass unseen |
| `Replays.SameCellInOrder` | examples/raft_server.cc:218-267 | Of two entries for one cell the earlier one is accepted first |
| `Replays.SufficientIff` | cpp/node.cc:1048-1064 | The words suffice exactly up to a look-back of 63 |
| `RecordFormat.ParseHeader` | cpp/log.cc:163-198 | Reading a header back gives every field that was written, for any checksum functions |
| `RecordFormat.ParseIff` | cpp/log.cc:163-206 | For any 40 bytes: a zero term is told apart first; the rest is read, field by field, exactly if the last four bytes are the checksum of the first 36 under the type in byte 25, and refused otherwise |
| `RecordFormat.CodecChecks` | cpp/log.cc:192-222 | The codec reads headers that way and accepts data exactly if they fit the checksum in their header |
| `RecordFormat.FormatIsCodec` | cpp/log.cc:404-420 | A written record can be read: its header from the first 40 bytes, then exactly its data, with both checksums accepted |
| `SegmentFiles.Segment.Append` | cpp/log.cc:372-451 | The file holds one more live record; the segment becomes the storage's view of that append, closing included; a closed one refuses; the journal grows while nothing was struck out |
| `SegmentFiles.Segment.Truncate` | cpp/log.cc:626-696 | Zeroing the term of each record after the kept index leaves every other record of the file readable, and the segment becomes the storage's view of the truncation; if anything is taken from a file nothing was taken from before, a zeroed term follows some of its records |
| `SegmentFiles.Segment.Load` | cpp/log.cc:266-370 | Records followed by anything: the records are recovered if what follows is an incomplete record; a header that fails its check is reported, a zeroed term never got over. So a file cut at any byte gives back exactly its complete records, with offsets, terms, last index and size as if only those had been appended; a closed segment reports data loss exactly when its last index is missing |
| `SegmentFiles.CorruptedIff` | cpp/log.cc:296-310 | What ends the loop with an error is exactly a whole header, with a term, that fails its checksum, and what it never gets over a whole header without a term |
| `SegmentFiles.StruckHangs` | cpp/log.cc:296-302 | Loading a file that truncation has taken something from never ends |
| `SegmentFiles.Segment.Get` | cpp/log.cc:466-524 | The last record written for the index and not struck out, or none |
| `SegmentFiles.ScanFile` | cpp/log.cc:293-343 | The loop takes in the complete records and stops for what follows them, whatever that is |
| `SegmentFiles.ReadRecord` | cpp/log.cc:155-226 | A record is returned exactly if header and data fit their checksums, and it is the one in the file; where a record was written, reading its span gives it back |
| `SegmentFiles.ReadableIff` | cpp/log.cc:192-222 | In terms of bytes: the term is not zero, the header fits its checksum, and the bytes after it fit the checksum in it |
| `SegmentFiles.StruckLive` | cpp/log.cc:641-656 | Striking one record out zeroes its term in the file and in memory and touches no other record |
| `SegmentFiles.JournalIsLive` | cpp/log.cc:436-451 | The offsets of a journal lead to the last record of each index, each in a span of its own |
| `SegmentFiles.LoadedIsNotFull` | cpp/log.cc:338-368 | A loaded segment, whose counter is zero, looks full only when it holds nothing |
| `Segments.FullfilledIff` | cpp/log.h:73-75 | With every index appended once, full means that no index from first to last is missing |
| `Segments.FullfilledWithRepeats` | cpp/log.h:73-75 | With repeated appends, full means that as many indexes are missing as were repeated |
| `Segments.RepeatLooksFull` | cpp/log.cc:438-441 | Appending indexes 1, 1 and 3 makes a segment look full with 2 missing |
| `Segments.AppendedInv` | cpp/log.cc:436-451 | An append counts one more, and there is one more live index exactly if the index is new; closing on full leaves no gap where every index was appended once |
| `Segments.Truncate` | cpp/log.cc:626-696 | A truncated segment holds exactly its records up to the kept index, its counter counts them, and it is open |
| `Segments.ClosedIffGapless` | cpp/log.cc:445-448 | A segment that takes no new indexes, counted exactly, is closed if it has no gap, and waits for its last gap otherwise |
| `Segments.CutSettledIff` | cpp/log.cc:672-694 | Such a segment that is cut back still closes once its gaps are filled exactly if it was not closed and is not full then; one that was closed never closes again |
| `SegmentChains.OpenSegment` | cpp/log.cc:1178-1220 | Rotation keeps the chain adjacent and changes no record; the retired segment is closed if it has no gap and marked for closing otherwise |
| `SegmentChains.RotatedIff` | cpp/log.cc:1188-1190 | A segment is retired exactly if it is larger than either limit |
| `SegmentChains.Retire` | cpp/log.cc:1193-1203 | A retired segment is closed exactly if it has no gap, while counted exactly, and otherwise marked for closing |
| `SegmentChains.GetSegment` | cpp/log.cc:1222-1250 | Every index of the log, and no other, has a segment whose range contains it; the checks never fail |
| `SegmentChains.TargetIsOpen` | cpp/log.cc:772-774 | Where no index was appended again, a new record never reaches a closed segment |
| `SegmentChains.AppendOne` | cpp/log.cc:765-780 | A record is refused exactly if its index lies in a closed segment; otherwise the chain stands for the map with it; a new index is never refused, and counters stay exact, where no index was appended again |
| `SegmentChains.AppendLate` | cpp/log.cc:772-780 | A record from before the open segment lands in the one segment whose range contains it, which closes if that makes it look full |
| `SegmentChains.RepeatedRecord` | cpp/log_manager.cc:400-412 | The input: a record that arrives again is refused after its segment was closed, and makes an open segment count it twice |
| `SegmentStorages.SegmentLogStorage.AppendEntries` | cpp/log.cc:754-784 | The map gains exactly the records stored, those before the first one whose index lies in a closed segment; new indexes are all stored, in any order, where no index was appended again; the other segments stay closed or waiting for their last gap |
| `SegmentStorages.SegmentLogStorage.SegmentsClose` | cpp/log.cc:436-451 | Over appends from an empty storage, while no index was appended again, a segment besides the open one is closed exactly if it has no gap |
| `SegmentStorages.SegmentLogStorage.GetEntry` | cpp/log.cc:804-810 | Lookup returns exactly the map's record |
| `SegmentStorages.SegmentLogStorage.GetTerm` | cpp/log.cc:812-818 | The term of the map's record, 0 if none |
| `SegmentStorages.SegmentLogStorage.TruncatePrefix` | cpp/log.cc:820-875 | The map keeps exactly the records from the kept index on, the chain stays adjacent, and an emptied log starts anew at the kept index |
| `SegmentStorages.SegmentLogStorage.TruncateSuffix` | cpp/log.cc:877-944 | The map keeps exactly the records up to the kept index; the log begins anew after it if nothing earlier is on disk; the storage stays sound exactly if the kept index is not beyond the log |
| `RepeatedTimers.RunKeeps` | cpp/repeated_timer_task.cc:43-177 | In every interleaving a stopped timer is never left waiting and a wanted one is under way |
| `RepeatedTimers.StartTakes` | cpp/repeated_timer_task.cc:77-96 | Starting a timer that is not destroyed leaves it wanted and under way |
| `RepeatedTimers.KeepsRepeating` | cpp/repeated_timer_task.cc:61-75 | From then on, until someone stops or destroys it, it stays under way, and whenever its callback leaves run() it is scheduled again |
| `RepeatedTimers.StoppedWindsDown` | cpp/repeated_timer_task.cc:43-53 | Once stopped, and until it is started again, it only winds down: run() begins at most once more, for a callback that had expired |
| `RepeatedTimers.WaitingMoves` | cpp/repeated_timer_task.cc:55-155 | A waiting timer that expires or is forced fires, one that is set back waits anew, and run() is entered and left only by its callback |
| `RepeatedTimers.DestroyedOnce` | cpp/repeated_timer_task.cc:157-177 | on_destroy comes at most once, exactly when destroyed with nothing under way, and no run() begins after it |
| `RepeatedTimers.DestroyCompletes` | cpp/repeated_timer_task.cc:55-75 | After destroy, at most two steps of the callback under way, each of them possible, lead to on_destroy |
| `RepeatedTimers.OneUnderWay` | cpp/repeated_timer_task.cc:43-177 | Pending timers and callbacks under way number one when running and none otherwise |
| `RepeatedTimers.RepeatedTimerTask.Start` | cpp/repeated_timer_task.cc:77-96 | Unless destroyed, the timer runs afterwards; one with nothing under way has one pending timer with a new identifier, or a callback if none could be added |
| `RepeatedTimers.RepeatedTimerTask.Stop` | cpp/repeated_timer_task.cc:43-53 | No timer is left pending, and it keeps running exactly for a callback under way; the check holds |
| `RepeatedTimers.RepeatedTimerTask.Reset` | cpp/repeated_timer_task.cc:134-155 | A pending timer is replaced by one with a new identifier, or fires if none could be added; the check holds |
| `RepeatedTimers.RepeatedTimerTask.RunOnceNow` | cpp/repeated_timer_task.cc:98-104 | A pending timer fires at once |
| `RepeatedTimers.RepeatedTimerTask.Destroy` | cpp/repeated_timer_task.cc:157-177 | Nothing is left pending, and on_destroy has been called exactly if no callback is under way; the checks hold |
| `RepeatedTimers.RepeatedTimerTask.EnterRun` | cpp/repeated_timer_task.cc:55-60 | The callback enters run() outside the mutex |
| `RepeatedTimers.RepeatedTimerTask.LeaveRun` | cpp/repeated_timer_task.cc:61-75 | One pending timer with a new identifier, or a callback, unless stopped; then it is idle, and on_destroy has been called if destroyed; the check holds |

## Left out

- Ballots.Ballot.Grant: a ballot is a value that its owner replaces, so that two references to one ballot are not modelled.
- ClosureQueues.ClosureQueue.PopClosureUntil: promises nothing of the queue where the code indexes its deques out of range.
- AckWindows.AckWindow: promises nothing where the code looks at the front of an empty deque.
- Replicators.Replicator.OnRpcReturned: a reply that finds nothing in flight is ignored, while the code looks at the front of an empty deque for its log message.
- CommitPipelines.CommitPipeline.Deliver: messages are delivered one by one; their batching in the state machine caller is not modelled.
- Conflicts.Resolve: the check that the kept entry has a term and the truncation handed to the disk thread are not modelled.
- LogManagers.LogManager.AppendEntries: promises nothing of memory where it does not stand for the log afterwards.
- Followers.Follower.Handle: promises nothing more once memory does not stand for the log.
- Followers.DependencyClosure: that no request loses a bit of an entry's word holds for the one-entry requests that the replicator sends; the leader's queue of ids is taken from the start of a leadership.
- SegmentStorages.SegmentLogStorage.AppendEntries: segments are values inside the storage; their files are modelled in SegmentFiles, whose methods give the same values. Indexes must be within the room of a segment's arrays; file errors are not modelled.
- SegmentStorages.SegmentLogStorage.TruncatePrefix: saving the meta file and unlinking files are not modelled.
- SegmentFiles.Segment.Load: configuration records are not parsed; a loop that never moves on is given the result Hung.
- Nodes.Node.FinishElect: the election timers that these methods start and stop are modelled on their own in RepeatedTimers; terms are unbounded, while the code keeps the current term in 32 bits.
- Shutdown of a node, leadership transfer, configuration changes, snapshots and reads.
- What clear_pending_tasks and ClosureQueue::clear leave behind: they reset one of two parallel queues, so claims are about one leadership from a fresh box.
- The commit index sent to followers, the state machine caller's run loop and iterators, the disk thread and its batches.
- The cache's list in arrival order and its timer, which only matter for giving up on requests.
- Checksum functions are parameters; the file system, RPC library, protobuf and text forms of addresses are not part of this model.
