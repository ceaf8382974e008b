# Peat, modelled in Dafny

Machine-checked models of the parts of Peat where correctness is hardest to see, each with what it
guarantees over all inputs, all runs or all reachable states.

- **Cell messaging** (`Messaging`, `BusRuns`, `BusNetwork`, `BusTiming`): sequence numbers, a stable priority queue,
  high-water-mark deduplication and retransmission with a retry cap, for one bus and for many buses on
  an unreliable network.
- **Geohash** (`GeohashBits`, `GeohashCells`, `GeohashCodec`, `Geohash`): bit interleaving, encode, decode
  and neighbour search, related to cells on a torus.
- **Leader election** (`LeaderElection`, `LeaderTenure`, `Convergence`, `StringOrder`): announcements,
  heartbeats, timeouts and overrides over a set of nodes.
- **Formation gate** (`Aggregation`, `AggregationLaws`, `ReadinessNumbers`, `Formation`, `FormationGate`):
  capability aggregation, human authority and the approval workflow.
- **Command admission** (`Commands`, `CommandRuns`): the per-target index, conflict policies and issuing.
- **Reconnection** (`Supervisor`, `Roster`, `RosterStore`): the dial state machine with backoff, and the
  crash-safe peer roster.
- **BLE bookkeeping** (`PeerTable`, `ConnectionSlots`, `ConnectionRuns`, `Advertising`): the peer time
  table, the connection slots and the advertising-data scanner.
- **Paging** (`Decimal`, `Paging`): cursors, pages and the walk over them.

`Prelude` and `StableSort` are shared. State that the source updates in place is a class whose methods are
proved against functions on plain values; the theorems about runs fold those functions over lists of
events. Clocks, hashes, I/O outcomes, and the order in which a hash map is visited are parameters.

## What does not hold

Several things one might expect of the code are false. Each has a concrete failing case and the exact
condition under which the expectation holds.

- Retransmission does not make delivery complete even without loss: a message first sent after a
  higher-numbered one is dropped as a duplicate (`FifoDeliversAllIff`, `EarlyPassLosesMessage`).
- On the upper edges (longitude 180, latitude 90) a geohash wraps to the opposite edge
  (`CentreWithinErrors`, `UpperEdgesWrap`).
- Nodes of a cell need not agree on one leader, and the module documentation of
  `peat-protocol/src/cell/leader_election.rs`, which says the highest score wins, is not what the code
  does: it compares node ids (`AgreementIff`, `MiddleLeaderSticks`).
- An election by itself never makes anyone leader, so no heartbeats are sent, every follower is deposed
  by a failure check more than six seconds after it began to follow, and re-election does not restore
  convergence: a re-elected node never names the greatest id again (`NoLeaderWithoutOverride`,
  `FollowingLastsSixSeconds`, `FollowerDeposed`, `ReelectedNeverNamesGreatest`, `ConvergesIff`).
- A node made leader by hand can be deposed by a tracker from before (`OverrideLastsIff`, `OverrideUndone`).
- A failed formation check can leave the phase gate open, and a cell can be approved after a check that
  found no leader (`StaleReadyIff`, `GateOpenIff`, `OpenGateMeansPassedIff`, `GateLeftOpen`,
  `LeaderlessApproval`).
- An approval is not tied to the team it was given for (`ApprovalServesEveryTeam`).
- "A human with authority" may carry only the unset level: the code asks for oversight of communication with
  no operator or an observer, but not with the unset level, although the comment at
  `peat-protocol/src/cell/capability_aggregation.rs` line 79 asks for at least Commander
  (`UnsetLevelCompletes`, `TeamPasses`, `AuthorityComesFromMemberIff`).
- A target can have several active commands (`SoleEntryIff`, `TwoCommandsOneTarget`, `TargetListsStaySmall`).
- A reused command id defeats admission (`AdmitsIff`, `ReusedIdIsAdmitted`). With fresh ids the merge policy
  admits nothing that the reject policy would not (`FreshIdCannotBorrow`).
- Backoff delays can shrink from the eighth to the ninth attempt (`NeverShrinksIff`, `ShrinkingHash`).
- A peer's last contact can go back if the clock does (`LastSeenGoesBackIff`, `ClockGoesBack`).
- The single-connection BLE handle can name a dead connection, a fifth connection is not tracked, and a
  connection can be named after the wrong node (`StaleHandleIff` and `FifthConnectionGoesStale`,
  `AllShownIff` and `FifthConnectionIsNotShown`, `RightlyNamedIff` and `SecondNamesFirst`).

## Model

| member | source | states |
|---|---|---|
| Messaging.Escalate | peat-protocol/src/cell/messaging.rs:106-121 | routing up the hierarchy raises the rank by one, capped at Critical; every other route keeps it |
| Messaging.MessageIdInjective | peat-protocol/src/cell/messaging.rs:210-232 | two messages have the same id only if they have the same sender and sequence number, whatever characters the sender id holds |
| Messaging.CellMessageBus.constructor | peat-protocol/src/cell/messaging.rs:356-368 | a new bus starts at sequence 1 with nothing queued, tracked or received |
| Messaging.CellMessageBus.Publish | peat-protocol/src/cell/messaging.rs:379-412 | takes the next number, appends and stably re-sorts the queue, and tracks the message |
| Messaging.CellMessageBus.Deliver | peat-protocol/src/cell/messaging.rs:416-452 | delivered once, and the mark moved, exactly if the time is at most timestamp plus lifetime and the number is above the sender’s mark; otherwise nothing changes |
| Messaging.CellMessageBus.Acknowledge | peat-protocol/src/cell/messaging.rs:455-462 | marks the tracked entry, if there is one, and nothing else |
| Messaging.CellMessageBus.ProcessRetransmissions | peat-protocol/src/cell/messaging.rs:466-502 | every timed-out unacknowledged entry is resent or failed by its retry count, settled entries are dropped, for any order in which the map is visited |
| Messaging.CellMessageBus.GetPendingMessages | peat-protocol/src/cell/messaging.rs:505-509 | returns the whole queue in order and empties it |
| Messaging.QueueIsStablePriorityQueue | peat-protocol/src/cell/messaging.rs:379-412 | the queue is always sorted by priority, loses nothing, and is first in first out within a priority |
| Messaging.HigherPriorityFirst | peat-protocol/src/cell/messaging.rs:395-402 | after a publish nothing in the queue comes behind a message of a lower priority |
| Messaging.DeliveredIff | peat-protocol/src/cell/messaging.rs:268-452 | a message reaches the subscribers exactly if the time is at most its timestamp plus its lifetime and its number is above the mark of its sender, if any; otherwise nothing changes |
| Messaging.NewMessageText | peat-protocol/src/cell/messaging.rs:210-232 | message 17 of "node" has the id "node-17", normal priority, the route inside the cell and thirty seconds to live |
| BusRuns.RunInv | peat-protocol/src/cell/messaging.rs:379-509 | the bus invariant (queue, tracking, retry counts) holds after every run of publish, drain, acknowledge, retransmit and deliver |
| BusRuns.Conservation | peat-protocol/src/cell/messaging.rs:379-509 | in every run each published number is in exactly one of tracked, settled by acknowledgement, settled as failed; none is handed out more than three times; one that timed out four times unacknowledged has failed; all drains followed by the queue are exactly the publications in order |
| BusRuns.SettlingIsFinal | peat-protocol/src/cell/messaging.rs:455-502 | a settled number never comes back, and an acknowledged one is never handed out again, however the run goes on |
| BusNetwork.NetRunInv | peat-protocol/src/cell/messaging.rs:379-509 | the network invariant holds after every run of any number of buses over a network that drops, duplicates and reorders |
| BusNetwork.DeliveryIsOrderedAndAuthentic | peat-protocol/src/cell/messaging.rs:416-452 | in every such run a receiver’s log per sender has strictly increasing numbers, and each message is exactly what that sender published under that number |
| BusNetwork.AllRecordedIff | peat-protocol/src/cell/messaging.rs:426-435 | a high-water mark lets every message of a stream through exactly when no message first appears after a higher-numbered one |
| BusNetwork.FifoDeliversAllIff | peat-protocol/src/cell/messaging.rs:416-509 | over a lossless first-in-first-out channel without expiry, whatever else the receiver sends or hears from others, deliveries from this sender increase strictly, and everything taken off the channel is delivered exactly when first sends were in increasing order |
| BusNetwork.FifoExactlyOnce | peat-protocol/src/cell/messaging.rs:416-509 | if every retransmission pass hands out only drained messages, what is delivered from this sender is exactly what was taken, each once, and a prefix of the publications |
| BusNetwork.EarlyPassLosesMessage | peat-protocol/src/cell/messaging.rs:466-509 | a pass before the first drain can resend a later number first; the earlier one is then drained, received and never delivered |
| BusTiming.TakenIsDeliveredIff | peat-protocol/src/cell/messaging.rs:268-452 | in every run over a channel, expiry included, a message published at u and taken at v is delivered exactly if v is at most u + 30 and its number is above the sender’s mark |
| BusTiming.InTimeIff | peat-protocol/src/cell/messaging.rs:268-452 | the channel laws’ freedom from expiry means exactly that every message is taken at most thirty seconds after the event that published it |
| BusTiming.LastSentIsKept | peat-protocol/src/cell/messaging.rs:379-502 | in every run the time kept with a tracked number is that of its publication or of the last pass that handed it out |
| BusTiming.PassActsWhenDue | peat-protocol/src/cell/messaging.rs:466-502 | in every run a pass hands an unacknowledged number out again exactly if at least 2000 ms have passed since it was last sent and it was handed out fewer than three times, and gives it up exactly if they have and it was handed out three times |
| BusTiming.StatusIsHistory | peat-protocol/src/cell/messaging.rs:455-502 | in every run a tracked number is acknowledged if it was ever acknowledged, delivered if it was handed out again, and pending otherwise |
| GeohashBits.Interleave | peat-protocol/src/geohash.rs:174-176 | deinterleaving the result gives back both words |
| GeohashBits.SquashUndoesSpread | peat-protocol/src/geohash.rs:163-187 | squash undoes spread, for all 32-bit words |
| GeohashBits.InterleaveUndoesDeinterleave | peat-protocol/src/geohash.rs:174-192 | interleaving the two halves of any 64-bit word gives the word back |
| GeohashBits.DeinterleaveTakesAlternateBits | peat-protocol/src/geohash.rs:179-192 | the two halves are the bits at odd and even positions, in order |
| GeohashCodec.Encoder | peat-protocol/src/geohash.rs:115-158 | the encoder table is inverse to the decoder table on all 32 digits |
| GeohashCodec.EncoderUndoesDecoder | peat-protocol/src/geohash.rs:115-158 | every byte the decoder accepts is the digit the encoder prints for its value |
| GeohashCodec.Encode | peat-protocol/src/geohash.rs:197-215 | the loop returns the leading base-32 digits of the interleaved word, or the range or length error |
| GeohashCodec.Decode | peat-protocol/src/geohash.rs:233-262 | the loop returns the centre and half extents of the cell, the first invalid character, or the length error |
| Geohash.EncodeFindsCell | peat-protocol/src/geohash.rs:197-215 | the hash names the cell, of 2^lat_bits by 2^lon_bits, that the point falls in |
| Geohash.DecodeFindsCentre | peat-protocol/src/geohash.rs:218-262 | decoding gives the centre of the named cell and half its height and width |
| Geohash.CellsDetermineHash | peat-protocol/src/geohash.rs:233-262 | two hashes of one length are equal exactly when they name the same row and column |
| Geohash.EncodeUndoesDecode | peat-protocol/src/geohash.rs:197-262 | encoding the decoded centre at the same length gives back the same hash, for every valid hash |
| Geohash.ShorterIsPrefix | peat-protocol/src/geohash.rs:197-215 | a shorter encoding of a point is a prefix of every longer one |
| Geohash.CentreWithinErrors | peat-protocol/src/geohash.rs:197-262 | for all accepted coordinates the decoded centre is within the reported errors of the input exactly when longitude is below 180 and latitude below 90 |
| Geohash.UpperEdgesWrap | peat-protocol/src/geohash.rs:205-208 | longitude 180 encodes like -180 and latitude 90 like -90 |
| Geohash.NeighborIsTorusStep | peat-protocol/src/geohash.rs:265-271 | for every valid hash and direction the neighbour is the hash of the same length whose row and column moved by the direction modulo 2^lat_bits and 2^lon_bits |
| Geohash.NeighborRow | peat-protocol/src/geohash.rs:88-271 | the three northward steps move one row up, the three southward one row down, each around the ring of rows; east and west keep the row |
| Geohash.NeighborColumn | peat-protocol/src/geohash.rs:88-271 | the three eastward steps move one column right, the three westward one column left, each around the ring of columns; north and south keep the column |
| Geohash.NorthInDegrees | peat-protocol/src/geohash.rs:265-271 | below the top row the decoded centre of the northern neighbour is two latitude errors further north, at the same longitude |
| Geohash.EastInDegrees | peat-protocol/src/geohash.rs:265-271 | before the last column the decoded centre of the eastern neighbour is two longitude errors further east, at the same latitude |
| Geohash.AroundTheOrigin | peat-protocol/src/geohash.rs:265-271 | the origin is in cell "s", with "u" to the north and "k" to the south |
| Geohash.OppositeCancels | peat-protocol/src/geohash.rs:265-271 | a step and the opposite step give back the hash |
| Geohash.NeighborsCommute | peat-protocol/src/geohash.rs:265-271 | two steps can be taken in either order |
| Geohash.NeighborOkIff | peat-protocol/src/geohash.rs:265-271 | a neighbour is returned for exactly the strings of one to twelve base-32 digits |
| Geohash.EncodeErrors | peat-protocol/src/geohash.rs:197-203 | coordinates out of range are refused first, with both of them, then a length that is not 1 to 12; nothing else is refused |
| Geohash.DecodeErrors | peat-protocol/src/geohash.rs:233-250 | more than twelve characters are refused, then the first character that is no digit, which is named; nothing else is refused but the empty string |
| LeaderElection.LeaderElectionManager.constructor | peat-protocol/src/cell/leader_election.rs:220-243 | a new node is a candidate in round 1 without leader or tracker |
| LeaderElection.LeaderElectionManager.HandleLeaderAnnounce | peat-protocol/src/cell/leader_election.rs:302-345 | only a candidate hearing a larger id in a round not older than its own starts to follow; nothing else changes anything |
| LeaderElection.LeaderElectionManager.HandleHeartbeat | peat-protocol/src/cell/leader_election.rs:348-362 | the tracker’s time becomes now exactly if the heartbeat is the leader’s and there is a tracker; nothing else changes |
| LeaderElection.LeaderElectionManager.CheckLeaderFailure | peat-protocol/src/cell/leader_election.rs:365-407 | re-elects in the next round exactly when the tracker is more than three intervals old |
| LeaderElection.LeaderElectionManager.SetAsLeader | peat-protocol/src/cell/leader_election.rs:440-444 | becomes leader and leaves the old tracker in place |
| LeaderElection.RunInv | peat-protocol/src/cell/leader_election.rs:263-407 | the cell invariant holds and no round decreases, over every run |
| LeaderElection.Root | peat-protocol/src/cell/leader_election.rs:302-345 | every chain of leaders ends at a node that follows nobody |
| LeaderElection.FollowGraphIsAcyclic | peat-protocol/src/cell/leader_election.rs:263-407 | in every run a follower’s leader has a larger id and a round at least its own, rounds never decrease, the greatest id never follows, and no node is its own ancestor, manual overrides included |
| StringOrder.DictionaryOrder | peat-protocol/src/cell/leader_election.rs:302-345 | ids are compared like words in a dictionary: the first difference decides, and a proper prefix comes first |
| LeaderTenure.AnnouncedIff | peat-protocol/src/cell/leader_election.rs:246-278 | in every run, exactly the rounds a node was started in or re-elected into are announced for it |
| LeaderTenure.OnlyOverrideMakesLeader | peat-protocol/src/cell/leader_election.rs:410-444 | in every run, a node never overridden is never leader and never sends a heartbeat |
| LeaderTenure.NoLeaderWithoutOverride | peat-protocol/src/cell/leader_election.rs:302-422 | in every run without overrides there is no leader and no heartbeat at all |
| LeaderTenure.FollowerSurvivesIff | peat-protocol/src/cell/leader_election.rs:302-383 | in every run, overrides included, a follower survives a failure check exactly if the check comes at most six seconds after it last had word of its leader: the announcement that made it follow, or the last heartbeat of that leader it received since |
| LeaderTenure.HeartbeatKeepsFollower | peat-protocol/src/cell/leader_election.rs:348-383 | a run in which a heartbeat received at 5000 ms carries a follower through a check at 7000 ms |
| LeaderTenure.FollowingLastsSixSeconds | peat-protocol/src/cell/leader_election.rs:365-383 | in every run without overrides a follower survives a failure check exactly if it began to follow at most six seconds before |
| LeaderTenure.FollowerDeposed | peat-protocol/src/cell/leader_election.rs:365-407 | a run in which a follower is a candidate again after a check at 6001 ms |
| LeaderTenure.OverrideLastsIff | peat-protocol/src/cell/leader_election.rs:348-444 | in every run, a node made leader by hand is still leader exactly if no later failure check of it came more than six seconds after its tracker, kept from before, was refreshed by a heartbeat carrying its own id |
| LeaderTenure.OverrideUndone | peat-protocol/src/cell/leader_election.rs:365-444 | a run in which the override of a former follower is undone by a check at 6001 ms |
| Convergence.RoundsAreBounded | peat-protocol/src/cell/leader_election.rs:302-407 | in every run, overrides included, a node’s round is at most one more than the number of larger ids, and the leader it tracks has a larger id and is at least as far along |
| Convergence.GreatestStaysInRoundOne | peat-protocol/src/cell/leader_election.rs:302-407 | in every run the greatest id stays in round 1 |
| Convergence.ReelectedNeverNamesGreatest | peat-protocol/src/cell/leader_election.rs:302-407 | in every run a node past round 1 never names the greatest id as leader again |
| Convergence.FollowsFirstHeard | peat-protocol/src/cell/leader_election.rs:302-407 | in every run without overrides a node is in round 1 exactly if no failure check of it came more than six seconds after it first heard a larger id, and then it follows exactly the first larger id it heard |
| Convergence.ConvergesIff | peat-protocol/src/cell/leader_election.rs:246-407 | in every run without overrides, failure checks included, every chain of leaders ends at the greatest id exactly when every other node has heard some larger id and was never checked more than six seconds after it first did |
| Convergence.AgreementIff | peat-protocol/src/cell/leader_election.rs:246-407 | in every run without overrides, failure checks included, all other nodes name one node as leader exactly when each heard it before any other larger id and was never checked more than six seconds after that |
| Convergence.ElectionConverges | peat-protocol/src/cell/leader_election.rs:246-345 | without failure checks, once every node has processed the announcement of every other, in any order and with any repetition, exactly the nodes other than the greatest follow, and every chain reaches the greatest |
| Convergence.MiddleLeaderSticks | peat-protocol/src/cell/leader_election.rs:341-345 | a node that hears a middle id first keeps it whatever it hears later, so the cell does not agree |
| Aggregation.MaxAuthority | peat-protocol/src/models/operator.rs:285-291 | an upper bound of the levels, and one of them when there is any |
| Aggregation.CollectContributors | peat-protocol/src/cell/capability_aggregation.rs:129-155 | the nested loops group every capability of every operational member under its type, in order |
| Aggregation.AggregateCapabilities | peat-protocol/src/cell/capability_aggregation.rs:126-164 | never fails, and returns the one map with an entry for exactly the types some operational member offers, each the aggregate of its contributors |
| Aggregation.CalculateReadinessScore | peat-protocol/src/cell/capability_aggregation.rs:225-258 | the loop computes the weighted mean whatever order the map yields |
| Aggregation.Gaps | peat-protocol/src/cell/capability_aggregation.rs:263-278 | there is no gap exactly when every required type is present and mission ready |
| Aggregation.IdentifyGaps | peat-protocol/src/cell/capability_aggregation.rs:263-278 | the loop lists the required types that are missing or not ready, in order |
| AggregationLaws.MemberOrderIsIrrelevant | peat-protocol/src/cell/capability_aggregation.rs:126-258 | shuffling the members changes no type, confidence, authority, oversight flag, count, multiset of contributors, nor the readiness score |
| AggregationLaws.ContributorsAreConserved | peat-protocol/src/cell/capability_aggregation.rs:129-155 | contributor counts add up to the number of capabilities of operational members |
| AggregationLaws.ConfidenceBounds | peat-protocol/src/cell/capability_aggregation.rs:178-205 | capping twice equals capping once, and the result lies between the capped mean and 1 |
| AggregationLaws.ConfidenceBetweenMeanAndOne | peat-protocol/src/cell/capability_aggregation.rs:167-215 | every aggregated confidence is between the contributors’ mean and 1, and not negative if theirs are not |
| AggregationLaws.ReadinessBetween | peat-protocol/src/cell/capability_aggregation.rs:225-258 | the readiness score lies within any bounds of the effective confidences |
| AggregationLaws.ReadinessInUnitInterval | peat-protocol/src/cell/capability_aggregation.rs:96-258 | the readiness score is at most 1 whatever is advertised, and not negative unless an operational member advertises a negative confidence |
| AggregationLaws.AuthorityComesFromMemberIff | peat-protocol/src/cell/capability_aggregation.rs:126-215 | the authority of an aggregated capability reaches a rank exactly when an operational member offering it has an operator of that rank |
| AggregationLaws.CriticalReadyIsHumanBacked | peat-protocol/src/cell/capability_aggregation.rs:68-93 | a communication or payload capability is mission ready only if an operational member offering it has an operator with an authority level, be it the unset one |
| AggregationLaws.LevelsDecide | peat-protocol/src/cell/capability_aggregation.rs:126-222 | a capability is aggregated with an authority of at least a rank exactly when an operational member advertising its number has an operator of that level or a higher one, by the raw numbers |
| AggregationLaws.PayloadOversight | peat-protocol/src/cell/capability_aggregation.rs:68-84 | a payload needs oversight exactly if an operational member advertises one and none of those has an operator of level 4 |
| AggregationLaws.CommsOversight | peat-protocol/src/cell/capability_aggregation.rs:68-84 | communication needs oversight exactly if an operational member advertises it, no operator behind it has level 2, 3 or 4, and one has level 1 or none has any |
| ReadinessNumbers.ReadyIff | peat-protocol/src/cell/capability_aggregation.rs:68-215 | an aggregate is mission ready exactly when mean and bonus reach 0.7, or 0.8 where oversight is needed; a payload or communication with no level behind it never is |
| ReadinessNumbers.OversightCost | peat-protocol/src/cell/capability_aggregation.rs:96-113 | by raw operator level, a capability needing oversight keeps its whole confidence at level 4, 0.85 of it at 3, 0.7 at 2, 0.6 at 1 and half otherwise; one not needing it keeps it all |
| ReadinessNumbers.ScoreOfTwo | peat-protocol/src/cell/capability_aggregation.rs:225-258 | the score of communication and one other capability is their weighted mean, communication weighing 30 |
| Formation.CellCoordinator.constructor | peat-protocol/src/cell/coordinator.rs:68-87 | the default thresholds, and a forming, unapproved state |
| Formation.CellCoordinator.CheckFormationComplete | peat-protocol/src/cell/coordinator.rs:97-169 | true exactly when size, leader, roles, gaps and readiness pass and approval is there if needed; the whole new state in every branch |
| Formation.CellCoordinator.ApproveFormation | peat-protocol/src/cell/coordinator.rs:182-204 | succeeds exactly when awaiting approval, and then approves, readies and stamps once |
| Formation.CellCoordinator.RejectFormation | peat-protocol/src/cell/coordinator.rs:207-218 | succeeds exactly when awaiting approval, and then fails the formation |
| FormationGate.GateOpenIff | peat-protocol/src/cell/coordinator.rs:233-248 | in every run the phase gate is open exactly when a complete check or an effective approval opened it and every event since was an approval or rejection out of turn or a check that stopped at leader or roles |
| FormationGate.OpenGateMeansPassedIff | peat-protocol/src/cell/coordinator.rs:97-248 | in every run, behind an open gate there is a latest check, and it passed everything but approval exactly if it had a leader and every member a role |
| Formation.CellCoordinator.Reset | peat-protocol/src/cell/coordinator.rs:251-259 | back to the state of a new coordinator |
| Formation.CompleteIsHumanBacked | peat-protocol/src/cell/coordinator.rs:97-169 | whenever the check returns true, each required communication or payload capability has an operational contributor whose operator binding carries an authority level |
| Formation.StaleReadyIff | peat-protocol/src/cell/coordinator.rs:113-121 | the check says no and leaves the cell ready exactly when it was ready, is large enough, and lacks a leader or a role |
| Formation.NeedsApprovalIff | peat-protocol/src/cell/coordinator.rs:174-179 | a team needs approval exactly if it has a payload no level 4 operator stands behind, or communication whose highest operator level is 1 or that has no operator, by the raw numbers |
| Formation.UnapprovedCompleteIff | peat-protocol/src/cell/coordinator.rs:97-169 | without an approval a check says complete exactly if every other criterion passes and neither of those holds |
| Formation.DefaultCriteria | peat-protocol/src/cell/coordinator.rs:68-148 | a new coordinator asks for three members, a leader, a role for each, communication and sensor mission ready and a score of at least 0.7, and for nothing else |
| FormationGate.TeamPasses | peat-protocol/src/cell/coordinator.rs:68-169 | the default criteria can be met: a team of three passes them at every operator level, and needs approval only at observer level |
| FormationGate.UnsetLevelCompletes | peat-protocol/src/cell/capability_aggregation.rs:68-93 | a team whose operators carry only the unset level is complete without approval, and nobody behind it ranks higher |
| FormationGate.GateLeftOpen | peat-protocol/src/cell/coordinator.rs:113-121 | a run from a new coordinator whose last check says no and whose gate is open |
| FormationGate.LeaderlessApproval | peat-protocol/src/cell/coordinator.rs:182-204 | a run in which a cell becomes ready by an approval although the latest check found no leader |
| FormationGate.ApprovalServesEveryTeam | peat-protocol/src/cell/coordinator.rs:150-169 | a run after which every team that passes is complete, whatever team the approval was given for |
| Formation.ApprovalHistory | peat-protocol/src/cell/coordinator.rs:97-259 | in every run: awaiting approval means not approved; a true check with an oversight capability implies an effective approval since the last reset, after a check that passed all else; ready implies a completion time |
| Formation.CompletionTimeIsFixed | peat-protocol/src/cell/coordinator.rs:157-166 | a completion time never changes until a reset |
| FormationGate.CompletionIsFirstReady | peat-protocol/src/cell/coordinator.rs:157-204 | in every run the completion time is that of the first event since the last reset that opened the gate |
| FormationGate.StartIsLastReset | peat-protocol/src/cell/coordinator.rs:68-259 | in every run the start time is that of the last reset, or of the construction |
| FormationGate.RejectionStands | peat-protocol/src/cell/coordinator.rs:182-218 | after an effective rejection an approval has no effect until another check asks; out of turn both change nothing |
| FormationGate.FailureReason | peat-protocol/src/cell/coordinator.rs:97-148 | a newly failed check names the criterion with the numbers behind it: the size and the minimum, exactly the required types that are gaps, or the score and the minimum |
| Commands.ResolvePicksFirstMaximal | peat-protocol/src/command/conflict_resolver.rs:66-192 | a ranking policy returns the earliest input among those with the largest key |
| Commands.ConflictsAreSharers | peat-protocol/src/command/conflict_resolver.rs:43-60 | a conflict is reported exactly when an active command shares a target, and lists exactly those commands |
| Commands.ListedWithout | peat-protocol/src/command/conflict_resolver.rs:108-120 | filtering a target’s list equals listing the filtered log |
| Commands.ConflictResolver.constructor | peat-protocol/src/command/conflict_resolver.rs:32-36 | an empty index for an empty log |
| Commands.ConflictResolver.CheckConflict | peat-protocol/src/command/conflict_resolver.rs:43-60 | the loop over targets returns exactly the conflicting entries of the log |
| Commands.ConflictResolver.RegisterCommand | peat-protocol/src/command/conflict_resolver.rs:96-105 | the index keeps agreeing with the log, which grows by the command |
| Commands.ConflictResolver.UnregisterCommand | peat-protocol/src/command/conflict_resolver.rs:108-120 | the index keeps agreeing with the log, which loses every entry with that id; no empty list remains |
| Commands.CommandCoordinator.constructor | peat-protocol/src/command/coordinator.rs:46-64 | empty maps |
| Commands.CommandCoordinator.IssueCommand | peat-protocol/src/command/coordinator.rs:68-157 | an admitted command is registered, stored and pending, even if routing fails; a rejected one changes no map and is refused with the error of its policy |
| CommandRuns.WinnersIdDecides | peat-protocol/src/command/coordinator.rs:77-105 | under a ranking policy admission depends on the id of the first command with the largest key among the sharers and the new one |
| CommandRuns.AdmitsIff | peat-protocol/src/command/coordinator.rs:77-105 | for any ids, a command is admitted exactly when it beats every active command sharing a target, or wins by a borrowed id: the sharer that wins carries its id (the first with the largest key, not below its own; under merge, the first) |
| CommandRuns.FreshIdCannotBorrow | peat-protocol/src/command/coordinator.rs:94-104 | with a fresh id only beating every sharer counts; under the reject, merge and unspecified policies that means having none |
| CommandRuns.AdmittedByAuthority | peat-protocol/src/command/conflict_resolver.rs:178-226 | policy 3, by the originator’s name: a zone is admitted unless it shares a target with a zone, a cohort or cell unless with a zone, cohort or cell, anything else only if it shares none |
| CommandRuns.AdmittedByTime | peat-protocol/src/command/conflict_resolver.rs:134-150 | policy 1: admitted exactly if issued later than every active command sharing a target, a missing time counting as 0 |
| CommandRuns.AdmittedByPriority | peat-protocol/src/command/conflict_resolver.rs:153-175 | policy 2 and any number that names no policy: admitted exactly if its priority is above that of every active command sharing a target, a number outside 0 to 4 counting as 1 |
| CommandRuns.AdmittedAlone | peat-protocol/src/command/conflict_resolver.rs:66-93 | policies 0, 4 and 5: admitted exactly if it shares a target with no active command |
| CommandRuns.SharesIff | peat-protocol/src/command/conflict_resolver.rs:123-129 | two commands share a target exactly if both have targets and one is in both lists |
| CommandRuns.UntargetedIsAdmitted | peat-protocol/src/command/conflict_resolver.rs:43-129 | a command without targets is always admitted and enters no target’s list, whatever its id and policy |
| CommandRuns.IssueKeepsChainIff | peat-protocol/src/command/coordinator.rs:68-117 | issuing keeps the order of the active commands exactly when the command does not win by a borrowed id |
| CommandRuns.RunChain | peat-protocol/src/command/coordinator.rs:68-136 | in every run with one policy and no borrowed ids, of any two active commands sharing a target the later one has the strictly larger key |
| CommandRuns.ListIncreasingIff | peat-protocol/src/command/conflict_resolver.rs:96-120 | a target’s list is strictly increasing in the key exactly when no active command names that target twice |
| CommandRuns.TargetListsStaySmall | peat-protocol/src/command/coordinator.rs:68-136 | in such runs the list of a target no active command names twice is strictly increasing, with at most five commands under priority, three under authority, one under a policy that does not rank |
| CommandRuns.SoleEntryIff | peat-protocol/src/command/coordinator.rs:108-117 | after an admitted issue a target it names has one entry exactly when it had none and is named once |
| CommandRuns.TwoCommandsOneTarget | peat-protocol/src/command/coordinator.rs:77-117 | from nothing, any two commands with different ids for one target, the second with the larger key, both stay active on it |
| CommandRuns.ReusedIdIsAdmitted | peat-protocol/src/command/coordinator.rs:94-104 | with a reused id a lower command is admitted over the one that beat it |
| Supervisor.DelayBounds | peat-ffi/src/supervisor.rs:174-182 | the delay is between the capped delay and six fifths of it |
| Supervisor.DelaysGrow | peat-ffi/src/supervisor.rs:174-182 | delays strictly grow through the eighth attempt, and the delay cut at five minutes never shrinks |
| Supervisor.NeverShrinksIff | peat-ffi/src/supervisor.rs:174-182 | the raw delay never shrinks with more attempts exactly for the hashes with h mod 51201 at most 44000 + h mod 60001 |
| Supervisor.ShrinkingHash | peat-ffi/src/supervisor.rs:174-182 | a hash for which the ninth delay is shorter than the eighth |
| Supervisor.DialSupervisor.constructor | peat-ffi/src/supervisor.rs:71-75 | no peers |
| Supervisor.DialSupervisor.Reconcile | peat-ffi/src/supervisor.rs:82-99 | afterwards exactly the live peers are connected, and exactly those that were not are reported, each once |
| Supervisor.DialSupervisor.DropAbsent | peat-ffi/src/supervisor.rs:93-97 | connected peers that are not live fall back to idle; nothing else changes |
| Supervisor.DialSupervisor.IsEligible | peat-ffi/src/supervisor.rs:104-113 | adds an unknown peer as idle and answers by phase |
| Supervisor.DialSupervisor.MarkConnecting | peat-ffi/src/supervisor.rs:116-121 | the dial’s start is recorded and attempts are kept |
| Supervisor.DialSupervisor.MarkConnected | peat-ffi/src/supervisor.rs:124-129 | connected with no failed attempts |
| Supervisor.DialSupervisor.MarkFailed | peat-ffi/src/supervisor.rs:134-141 | one more attempt, saturating, and the next time from the backoff |
| Supervisor.DialSupervisor.ResetBackoffAll | peat-ffi/src/supervisor.rs:150-158 | every backing-off peer becomes idle with no attempts; no other entry changes |
| Supervisor.DialSupervisor.Retain | peat-ffi/src/supervisor.rs:162-165 | exactly the kept peers stay, unchanged |
| Supervisor.AttemptsFollowPhase | peat-ffi/src/supervisor.rs:82-165 | in every run idle and connected peers have no failed attempts and backing-off ones have some |
| Supervisor.DialsAreSpaced | peat-ffi/src/supervisor.rs:104-121 | with no outcome, live link or prune in between, a second dial is allowed at exactly the times 30 s or more after the first |
| Supervisor.RetryAfterDelay | peat-ffi/src/supervisor.rs:104-141 | after a failure the peer may be dialed exactly once the delay for its attempt count has passed |
| Supervisor.ReportedOnce | peat-ffi/src/supervisor.rs:82-99 | a reported connection stays connected, so is not reported again, until a failure, a prune or a reconcile without it |
| Supervisor.EligibleAtOnce | peat-ffi/src/supervisor.rs:104-158 | an unknown peer may be dialed at any time, and so may one in backoff after a reset, which leaves connecting and connected peers alone |
| Supervisor.AttemptsCountFailures | peat-ffi/src/supervisor.rs:82-165 | in every run the attempt count is the number of failures since the peer was last connected, reset or pruned, saturating at 32 bits |
| Roster.LoadUndoesSave | peat-ffi/src/roster.rs:67-98 | reading back a written roster gives the same map |
| Roster.ListingIsUnique | peat-ffi/src/roster.rs:86-98 | a roster has one listing sorted by id |
| Roster.SortGivesListing | peat-ffi/src/roster.rs:86-98 | sorting the entries gathered in any order gives that listing |
| RosterStore.Store.Load | peat-ffi/src/roster.rs:67-82 | the entries of the live file; empty if it is missing or does not parse |
| RosterStore.Store.List | peat-ffi/src/roster.rs:133-138 | the listing sorted by id |
| RosterStore.Store.Persist | peat-ffi/src/roster.rs:86-98 | the live file changes only if write and rename both succeed, and then holds the listing |
| RosterStore.Store.Upsert | peat-ffi/src/roster.rs:104-113 | inserts without moving the last contact back, and persists |
| RosterStore.Store.Remove | peat-ffi/src/roster.rs:117-124 | removes, persists only if there was an entry, and says so |
| RosterStore.Store.MarkSeen | peat-ffi/src/roster.rs:154-160 | stamps a known entry and persists; otherwise nothing |
| RosterStore.LiveHoldsAPrefix | peat-ffi/src/roster.rs:67-160 | in every run, with any writes failing, the live file loads to the roster after the last operation that was saved |
| RosterStore.CrashRecoversAPrefix | peat-ffi/src/roster.rs:86-98 | a crash at any point of any operation leaves a live file that loads to the roster after some prefix of the operations, no older than the last save |
| RosterStore.SavedNeverShrinks | peat-ffi/src/roster.rs:86-98 | a longer run has saved at least as many operations |
| RosterStore.LoadEqualsMemory | peat-ffi/src/roster.rs:67-160 | when every write succeeds, loading returns exactly the entries in memory |
| RosterStore.LastSeenGoesBackIff | peat-ffi/src/roster.rs:104-160 | an operation moves an entry’s last contact back exactly when it marks it seen at an earlier time |
| RosterStore.ClockGoesBack | peat-ffi/src/roster.rs:154-160 | a run from an empty disk in which a last contact goes from 5 to 3 |
| RosterStore.LastSeenNeverGoesBack | peat-ffi/src/roster.rs:104-160 | if contacts are marked at times no earlier than any recorded before, last contact never goes back while the entry is present |
| RosterStore.AppliedTo | peat-ffi/src/roster.rs:104-160 | an upsert stores the given entry with the later of the two contact times, a removal leaves none, a contact changes only the time of a known entry, and every other entry is as before |
| RosterStore.LoadedLast | peat-ffi/src/roster.rs:67-82 | a missing or corrupt file loads as an empty roster, and of several entries with one id the last counts |
| PeerTable.TimeTable.constructor | examples/m5stack-core2-peat/src/nimble.rs:116-117 | eight unused slots |
| PeerTable.TimeTable.Record | examples/m5stack-core2-peat/src/nimble.rs:157-176 | updates the peer’s slot, or replaces the first slot with the smallest time |
| PeerTable.TimeTable.Get | examples/m5stack-core2-peat/src/nimble.rs:179-188 | the time in the peer’s slot, or 0 |
| PeerTable.NeverHeldTwice | examples/m5stack-core2-peat/src/nimble.rs:157-176 | whatever is recorded, no non-zero address is held twice |
| PeerTable.KeepsRecent | examples/m5stack-core2-peat/src/nimble.rs:157-188 | for every run of real addresses at positive times that never go back the table answers with the latest time or 0: the latest time if at most eight peers are as recent, 0 if eight are more recent |
| PeerTable.KeepsTheEightMostRecent | examples/m5stack-core2-peat/src/nimble.rs:157-188 | for a peer that shares its latest time with no other, the table answers like an unbounded map for exactly the eight most recent peers, and 0 for the rest |
| PeerTable.StrictTimesHaveNoTies | examples/m5stack-core2-peat/src/nimble.rs:157-176 | strictly increasing times leave no ties |
| PeerTable.UnknownIsZero | examples/m5stack-core2-peat/src/nimble.rs:179-188 | a peer never recorded is answered with 0 |
| Advertising.Scan16 | examples/m5stack-core2-peat/src/nimble.rs:238-248 | finds the 16-bit UUID at an aligned position exactly when there is one |
| Advertising.Scan128 | examples/m5stack-core2-peat/src/nimble.rs:251-264 | finds the 128-bit UUID at an aligned position exactly when there is one |
| Advertising.ScanStructure | examples/m5stack-core2-peat/src/nimble.rs:235-264 | a structure announces the service exactly when its type and value do |
| Advertising.HasPeatService | examples/m5stack-core2-peat/src/nimble.rs:224-269 | terminates, reads only inside the buffer, and is true exactly when a structure of the well-formed prefix carries the 16-bit or 128-bit service UUID, for every byte sequence |
| Advertising.TooShort | examples/m5stack-core2-peat/src/nimble.rs:225-227 | fewer than four bytes can announce nothing, so the length guard rejects no announcement |
| Advertising.ListOf16 | examples/m5stack-core2-peat/src/nimble.rs:22-248 | a list of one 16-bit UUID announces Peat exactly if it is F47A, low byte first, and the type is 2 or 3 |
| Advertising.ListOf128 | examples/m5stack-core2-peat/src/nimble.rs:22-264 | a list of one 128-bit UUID announces Peat exactly if it is f47ac10b-58cc-4372-a567-0e02b2c3d479, last byte first, and the type is 6 or 7 |
| Advertising.ListedOneByOne | examples/m5stack-core2-peat/src/nimble.rs:238-264 | each UUID of a list counts by itself and none straddles two of them |
| ConnectionSlots.ConnectInv | examples/m5stack-core2-peat/src/nimble.rs:307-326 | a new connection takes a slot exactly when fewer than four are active, and starts without a node id |
| ConnectionSlots.DisconnectInv | examples/m5stack-core2-peat/src/nimble.rs:379-407 | the invariant is kept, and the counter is positive whenever a slot is freed |
| ConnectionSlots.NamingInv | examples/m5stack-core2-peat/src/nimble.rs:1294-1305 | the invariant is kept when a connection gets its node id |
| ConnectionSlots.Radio.constructor | examples/m5stack-core2-peat/src/nimble.rs:62-71 | four free slots |
| ConnectionSlots.Radio.OnConnect | examples/m5stack-core2-peat/src/nimble.rs:307-328 | fills the first free slot, if any, and sets the single-connection flag and handle |
| ConnectionSlots.Radio.OnDisconnect | examples/m5stack-core2-peat/src/nimble.rs:379-407 | clears the first slot with the handle, reports its node id if set, and updates flag and handle |
| ConnectionSlots.Radio.SetConnectionNodeId | examples/m5stack-core2-peat/src/nimble.rs:1294-1305 | names the first active connection without a node id |
| ConnectionSlots.RunInv | examples/m5stack-core2-peat/src/nimble.rs:307-407 | in every run the counter is the number of active slots, the flag says whether there is one, and inactive slots are cleared |
| ConnectionRuns.SlotsShowTracked | examples/m5stack-core2-peat/src/nimble.rs:307-407 | in every run with fresh handles the slots show, one each, exactly the connections a table of four would track that ignores a connection coming when it is full, and the counter is their number |
| ConnectionRuns.AllShownIff | examples/m5stack-core2-peat/src/nimble.rs:307-326 | the slots show every connection the radio reports up exactly when none of them came while four slots were taken |
| ConnectionRuns.FifthConnectionIsNotShown | examples/m5stack-core2-peat/src/nimble.rs:307-326 | five connections are up and the fifth is in no slot |
| ConnectionRuns.StaleHandleIff | examples/m5stack-core2-peat/src/nimble.rs:324-407 | in every run, with any number of connections and any handles, the single-connection handle names a connection that is down while connected is set exactly when the last connection reported up has gone down and a slot is still taken |
| ConnectionRuns.FifthConnectionGoesStale | examples/m5stack-core2-peat/src/nimble.rs:307-407 | five connections and the end of the fifth leave four up and the handle of the fifth |
| ConnectionRuns.RightlyNamedIff | examples/m5stack-core2-peat/src/nimble.rs:1294-1305 | connections stay named after the node at the other end exactly when every document that arrives comes from the first unnamed connection, if there is one (a zero id aside) |
| ConnectionRuns.ReportsAreRight | examples/m5stack-core2-peat/src/nimble.rs:379-395 | in such runs a disconnect reports the node at the other end of the connection that left, or nothing |
| ConnectionRuns.SecondNamesFirst | examples/m5stack-core2-peat/src/nimble.rs:1294-1305 | with two unnamed connections, a document from the second names the first, and the end of the first is reported as the node of the second |
| ConnectionRuns.NamingIsFirstUnnamed | examples/m5stack-core2-peat/src/nimble.rs:1294-1305 | a document names the first active connection without a name and changes no other slot |
| Decimal.ParseUndoesPrint | peat-ffi/src/application_delivery.rs:325-329 | parsing a printed offset gives it back |
| Paging.ParseCursorUndoesCursor | peat-ffi/src/application_delivery.rs:311-330 | parsing undoes printing for every 64-bit offset, within the cursor length bound |
| Paging.ParseCursorIff | peat-ffi/src/application_delivery.rs:311-330 | a cursor denotes n exactly if it has at most 64 bytes, starts with "v1:" and goes on, after at most one plus sign, with decimal digits of value n below 2^64; no cursor denotes 0 |
| Paging.CursorText | peat-ffi/src/application_delivery.rs:445-449 | the cursors of offsets 0 and 100 are "v1:0" and "v1:100" |
| Paging.Utf8Lengths | peat-ffi/src/application_delivery.rs:174-316 | lengths are counted in UTF-8 bytes, at each boundary between one and four |
| Paging.PageOkIff | peat-ffi/src/application_delivery.rs:422-443 | a page is returned exactly for a limit of 1 to 100, a cursor that parses, a readable store and an offset inside it |
| Paging.PageAt | peat-ffi/src/application_delivery.rs:444-453 | the page holds the next operations up to the limit, and a next cursor exactly when more remain |
| Paging.PagingReadsEverything | peat-ffi/src/application_delivery.rs:422-454 | a walk from no cursor over a store growing only at its end never fails, reads a prefix while it lasts and exactly one snapshot when it ends, and lasts beyond n pages only if more than n times limit operations exist |
| Paging.PagingAFixedList | peat-ffi/src/application_delivery.rs:422-454 | over an unchanging list the walk ends within the expected number of pages and reads exactly the list |
| Paging.ReceivedDocument | peat-ffi/src/application_delivery.rs:214-231 | accepted, unchanged, exactly when both tokens and the body are within bounds |
| Paging.DeliverableIff | peat-ffi/src/application_delivery.rs:174-231 | the bounds by number: names of 1 to 128 and 1 to 256 bytes, a body of 1 to 1048576, and the characters a name may hold |
| Paging.ReceivedPage | peat-ffi/src/application_delivery.rs:233-258 | sent, unchanged, exactly when every document is deliverable and the bodies total at most 4 MiB |

## Left out

- Floating point: confidences, scores and coordinates are exact reals; rounding, NaN and infinities are not modelled. Geohash mantissas are the fraction rounded down at 32 bits.
- Integer widths: message sequence numbers (u64) do not wrap, nor do election rounds (u32), which RoundsAreBounded keeps below the number of nodes plus one; the supervisor's saturating arithmetic, the u32 times of the BLE table and the geohash word sizes are modelled.
- Decoding the empty geohash shifts a 64-bit word by 64, which panics or not by build mode; the model reports it as an error of its own.
- Locks and async: each method is one atomic step. In particular checking and registering a command, and asking for eligibility and marking a dial, are single steps although the source takes its lock twice.
- Message subscribers are a log of delivered messages. Bus statistics, bandwidth factors and the message constructors that set another priority, route or lifetime are not modelled: nothing the bus does reads them, and it publishes only default messages.
- Leadership scores: the election never reads them, so they are not modelled; nor is the candidate table, which nothing reads.
- Command routing, acknowledgement collection, expiry tracking and storage: routing success is a parameter, and registering an expiry always succeeds and touches none of the modelled maps.
- Incoming commands from other nodes do not pass the conflict check and are not modelled.
- Error texts are reduced to error kinds.
- Failure reasons of a formation hold the numbers behind the message, not its text.
- Roster serialisation: a file holds a list of entries or bytes that do not parse; that JSON printing and parsing are inverse is built into this.
- RosterStore.CrashRecoversAPrefix: the crash is of the process. The source does not sync the temporary file before the rename, so what a power loss leaves on the disk is not covered.
- Roster lookups by id and by group are not modelled: they read the map or the listing and change nothing.
- Supervisor orchestration in `peat-ffi/src/lib.rs` (spawning dials, building the live set) is represented by the events of a run.
- PeerTable.KeepsRecent: among peers last contacted in the same second, which one is replaced depends on their slots and is not stated; recording the all-zero address is excluded, because it is also the mark of an unused slot; NeverHeldTwice covers it.
- ConnectionSlots: NimBLE calls, role detection, advertising and scanning, and connect events that report failure, which touch no slot.
- ConnectionRuns.SlotsShowTracked: needs the radio not to report a handle as connected while it already is, since two slots with one handle cannot be told apart.
- ConnectionRuns.ReportsAreRight: takes it that an address belongs to one node for the whole run.
- LeaderElectionManager.StartElection and SendHeartbeatIfLeader, and CellCoordinator.GetHierarchicalPhase, are in the model as the single expressions they are; what they mean over a run is in AnnouncedIff, OnlyOverrideMakesLeader and GateOpenIff.
- The delivery store behind the pages, endpoint id conversion and the mapping of operations to their foreign-interface form, which is applied to each operation alone.
- Automerge-backed collections, the schema registry, transports, persistence adapters, foreign-call bindings, scripts and demos.
