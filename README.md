# Stream listing decoder and consumer-group scenario

This project models two parts of a message-streaming system.

- **The client's "get streams" handler.** The client sends command byte 10
  and receives the server's response into a 1024-byte buffer. It checks the
  status byte. A one-byte response means there are no streams. Otherwise the
  handler decodes a sequence of stream records and orders them by id. Each
  record has a little-endian `u32` id, a `u32` topic count, a `u32` name
  length and then the name's bytes. The record layout is modelled as
  functions on byte sequences (`StreamsCodec`). The sort is an in-place
  insertion sort over an array, proved to compute a stable sort by id
  (`StreamOrder`). The handler itself is a method with the decoding loop
  over the receive buffer (`GetStreamsHandler`).
- **The server-side consumer-group scenario.** Three clients join consumer
  group 1 on topic 1 of stream 1, which has three partitions.
  - **Keyed part:** 1000 messages keyed by entity id are sent. Each client
    polls 3000 times, one message at a time with auto-commit. Each client
    reads the whole log of its one partition, in order, so together they
    read exactly 1000 messages and every message sent exactly once.
  - **Reset:** the stream is deleted and set up again.
  - **Keyless part:** 3000 messages are sent without a key, so they go round
    robin. Each client reads its partition back in order: the i-th poll
    returns offset i - 1 with the expected entity id. Once the partition is
    read to the end, a poll returns nothing.

  The server state is modelled as follows:
  - partition assignment: `GroupAssignment`;
  - logs, groups and the "next" poll: `ConsumerGroups`;
  - a topic: the class `Topics.Topic`;
  - the registry of streams and topics: the class `Brokers.Broker`.

  The scenario's arithmetic is in `ScenarioArithmetic`. The scenario itself
  is a set of methods in `ConsumerGroupScenario`. Every assertion the
  scenario makes is an `assert` there, and it is proved for every triple of
  distinct client ids and every keyed routing hash.

## Model

| member | source | states |
|---|---|---|
| StreamsCodec.LeBytes | client/src/handlers/streams/get_streams_handler.rs:25-28 | a `u32` is four little-endian bytes to read back |
| StreamsCodec.U32AtLeBytes | client/src/handlers/streams/get_streams_handler.rs:25-28 | reading four bytes as a little-endian `u32` inverts writing them |
| StreamsCodec.LeBytesOfU32At | client/src/handlers/streams/get_streams_handler.rs:25-28 | any four bytes are the little-endian encoding of the `u32` read from them |
| StreamsCodec.IsUtf8 | client/src/handlers/streams/get_streams_handler.rs:29 | a non-empty valid UTF-8 name starts with an ASCII byte or a lead byte in 0xC2..0xF4, never a continuation byte |
| StreamsCodec.Utf8CharLength | client/src/handlers/streams/get_streams_handler.rs:29 | the length of one UTF-8 encoded character is at most 4 and at most what remains; an ASCII byte is one character |
| StreamsCodec.Utf8Concat | client/src/handlers/streams/get_streams_handler.rs:29 | two valid UTF-8 byte strings concatenate to a valid one |
| StreamsCodec.AsciiIsUtf8 | client/src/handlers/streams/get_streams_handler.rs:29 | ASCII names pass the UTF-8 check |
| StreamsCodec.EncodeRecord | client/src/handlers/streams/get_streams_handler.rs:25-35 | a record is a 12-byte header followed by the name, so the cursor advances by 12 plus the name length |
| StreamsCodec.EncodeRecords | client/src/handlers/streams/get_streams_handler.rs:24-35 | the body of a listing is at least 12 bytes per record and is empty exactly when there are no records |
| StreamsCodec.EncodeResponse | client/src/handlers/streams/get_streams_handler.rs:13-21 | a response starts with the success status byte 0, followed by the records |
| StreamsCodec.EncodeRecordFields | client/src/handlers/streams/get_streams_handler.rs:25-29 | the id is at offset 0, the topic count at 4, the name length at 8 and the name at 12..12+length |
| StreamsCodec.DecodeRecords | client/src/handlers/streams/get_streams_handler.rs:20-40 | a body that decodes holds at least 12 bytes per record, and decodes to no records exactly when it is empty |
| StreamsCodec.DecodeAt | client/src/handlers/streams/get_streams_handler.rs:24-39 | the decoder at position pos: a header that runs past the end is MalformedPayload; a name that runs past the end is MalformedPayload; otherwise it reads the fields at pos+0/+4/+8 and the name at pos+12, rejects a non-UTF-8 name, and continues at pos+12+length |
| StreamsCodec.DecodeAtRecord | client/src/handlers/streams/get_streams_handler.rs:25-35 | with a whole header and name left at pos, decoding from pos rejects a non-UTF-8 name and otherwise yields the record with those fields, then what the bytes after the name decode to |
| StreamsCodec.DecodeOneRecord | client/src/handlers/streams/get_streams_handler.rs:24-39 | decoding an encoded record followed by more bytes yields that record, then what the rest decodes to |
| StreamsCodec.DecodeEncodedPrefix | client/src/handlers/streams/get_streams_handler.rs:24-39 | decoding encoded records followed by more bytes yields those records, in order, then what the rest decodes to |
| StreamsCodec.RoundTrip | client/src/handlers/streams/get_streams_handler.rs:20-40 | decoding the encoding of well-formed streams gives back exactly those streams, in order |
| StreamsCodec.DecodeFirstRecord | client/src/handlers/streams/get_streams_handler.rs:24-35 | a body that decodes has a complete header and name at its front, and the rest decodes too |
| StreamsCodec.DecodedAreWellFormed | client/src/handlers/streams/get_streams_handler.rs:29-34 | every decoded stream has a valid UTF-8 name whose length fits in a `u32` |
| StreamsCodec.DecodeThenEncode | client/src/handlers/streams/get_streams_handler.rs:20-40 | a body that decodes is exactly the encoding of what it decodes to, so decoding loses nothing |
| StreamsCodec.PartialRecordIsMalformed | client/src/handlers/streams/get_streams_handler.rs:25-29 | a record cut short anywhere inside its header or name is MalformedPayload |
| StreamsCodec.TruncatedBodyIsMalformed | client/src/handlers/streams/get_streams_handler.rs:24-40 | a body whose last record is cut short is MalformedPayload, and no read goes past the bytes received |
| StreamOrder.Insert | client/src/handlers/streams/get_streams_handler.rs:42 | one insertion step adds exactly one element |
| StreamOrder.InsertionSort | client/src/handlers/streams/get_streams_handler.rs:42 | sorting keeps the number of streams |
| StreamOrder.InsertPermutes | client/src/handlers/streams/get_streams_handler.rs:42 | an insertion adds exactly the inserted stream to the multiset |
| StreamOrder.InsertSorted | client/src/handlers/streams/get_streams_handler.rs:42 | inserting into a list sorted by id keeps it sorted |
| StreamOrder.InsertionSortCorrect | client/src/handlers/streams/get_streams_handler.rs:42 | the result is sorted by ascending id and is a permutation of the input |
| StreamOrder.InsertStable | client/src/handlers/streams/get_streams_handler.rs:42 | an insertion places the new stream after the streams that already have its id |
| StreamOrder.InsertionSortIsStable | client/src/handlers/streams/get_streams_handler.rs:42 | streams with the same id keep their decoded order, as the stable `sort_by` on the id does |
| StreamOrder.InsertPosition | client/src/handlers/streams/get_streams_handler.rs:42 | the inserted stream lands after the last stream whose id is not greater than its own |
| StreamOrder.ShiftGreater | client/src/handlers/streams/get_streams_handler.rs:42 | the in-place step moves the streams with a greater id one place right and opens the gap where the new one belongs |
| StreamOrder.InsertLast | client/src/handlers/streams/get_streams_handler.rs:42 | one pass over the array computes Insert on its prefix and leaves the rest alone |
| StreamOrder.SortById | client/src/handlers/streams/get_streams_handler.rs:42 | the array afterwards is the stable sort by id of its old contents |
| GetStreamsHandler.GetStreams | client/src/handlers/streams/get_streams_handler.rs:10-42 | the listing succeeds exactly when the status byte is 0 and the body decodes; it is then sorted by id and a permutation of the decoded streams |
| GetStreamsHandler.ReadU32 | client/src/handlers/streams/get_streams_handler.rs:21-28 | a field read in the buffer is the same read at the corresponding offset of the payload buffer[1..payload_length] |
| GetStreamsHandler.HandleGetStreams | client/src/handlers/streams/get_streams_handler.rs:10-42 | the handler computes GetStreams. The status is checked first: a non-zero status is its error; a one-byte response is the empty listing |
| GetStreamsHandler.DecodeBody | client/src/handlers/streams/get_streams_handler.rs:20-40 | the buffer loop with its cursor computes DecodeRecords of the payload |
| GetStreamsHandler.ResponseRoundTrip | client/src/handlers/streams/get_streams_handler.rs:10-42 | a buffer holding the encoded response for some streams yields exactly those streams, sorted by id |
| GetStreamsHandler.TruncatedResponseIsMalformed | client/src/handlers/streams/get_streams_handler.rs:12-40 | a datagram that ends inside its last record is rejected as MalformedPayload |
| GetStreamsHandler.BodyFailure | client/src/handlers/streams/get_streams_handler.rs:13-40 | a response with status 0 whose body does not decode is rejected with the decoder's error |
| ScenarioArithmetic.WrapToRange | server/tests/common/scenarios/consumer_group_with_multiple_clients_polling_messages_scenario.rs:179-182 | the scenario's "mod 3, with 0 becoming 3" lands in 1..3, equals ((x - 1) mod 3) + 1, and leaves 1..3 unchanged |
| ScenarioArithmetic.ExpectedPartition | server/tests/common/scenarios/consumer_group_with_multiple_clients_polling_messages_scenario.rs:179-182 | the partition expected for the e-th keyless message is in 1..3 and is ((e - 1) mod 3) + 1 |
| ScenarioArithmetic.StartEntityId | server/tests/common/scenarios/consumer_group_with_multiple_clients_polling_messages_scenario.rs:224-227 | the first entity id a member of partition p expects is in 1..3 and, for p in 1..3, is p itself |
| ScenarioArithmetic.ExpectedEntityId | server/tests/common/scenarios/consumer_group_with_multiple_clients_polling_messages_scenario.rs:248 | the entity id the i-th poll expects is at least i and lies in the i-th block of three ids |
| ScenarioArithmetic.ExpectedEntityIdRoutesBack | server/tests/common/scenarios/consumer_group_with_multiple_clients_polling_messages_scenario.rs:224-248 | the entity id the i-th poll of partition p expects was sent to p |
| ScenarioArithmetic.EntityIdFromPartitionAndPoll | server/tests/common/scenarios/consumer_group_with_multiple_clients_polling_messages_scenario.rs:179-182 | every entity id e is the one expected at poll (e - 1) / 3 + 1 of its partition |
| ScenarioArithmetic.ExpectedEntityIdIncreasing | server/tests/common/scenarios/consumer_group_with_multiple_clients_polling_messages_scenario.rs:248 | later polls of a partition expect larger entity ids |
| ScenarioArithmetic.SentToClosedForm | server/tests/common/scenarios/consumer_group_with_multiple_clients_polling_messages_scenario.rs:178-182 | after entity ids 1..e, partition p has received (e + 3 - p) / 3 of them |
| ScenarioArithmetic.FullRoundsAreBalanced | server/tests/common/scenarios/consumer_group_with_multiple_clients_polling_messages_scenario.rs:178 | 3000 keyless sends put exactly 1000 messages on each partition |
| ScenarioArithmetic.NextEntityIdLandsInPlace | server/tests/common/scenarios/consumer_group_with_multiple_clients_polling_messages_scenario.rs:178-195 | each keyless send lands at the position whose expected entity id is its own |
| GroupAssignment.PartitionsForMembers | server/tests/common/scenarios/consumer_group_with_multiple_clients_polling_messages_scenario.rs:110-112 | member index i holds partition p exactly when (p - 1) mod memberCount is i |
| GroupAssignment.PartitionsForIncreasing | server/tests/common/scenarios/consumer_group_with_multiple_clients_polling_messages_scenario.rs:110-112 | a member's partitions are ascending and among 1..n |
| GroupAssignment.PartitionsForCount | server/tests/common/scenarios/consumer_group_with_multiple_clients_polling_messages_scenario.rs:110-112 | member index i holds n / m partitions, plus one when i < n mod m |
| GroupAssignment.Assignment | server/tests/common/scenarios/consumer_group_with_multiple_clients_polling_messages_scenario.rs:89-98 | the assignment has an entry for every member and for no one else |
| GroupAssignment.AssignmentCoversOnce | server/tests/common/scenarios/consumer_group_with_multiple_clients_polling_messages_scenario.rs:110-112 | every partition is held by exactly one member |
| GroupAssignment.AssignmentDisjoint | server/tests/common/scenarios/consumer_group_with_multiple_clients_polling_messages_scenario.rs:110-112 | no partition is held by two members |
| GroupAssignment.AssignmentWithinRange | server/tests/common/scenarios/consumer_group_with_multiple_clients_polling_messages_scenario.rs:223 | each member's partition list is ascending and within 1..n |
| GroupAssignment.AssignmentBalanced | server/tests/common/scenarios/consumer_group_with_multiple_clients_polling_messages_scenario.rs:110-112 | the numbers of partitions two members hold differ by at most one |
| GroupAssignment.OnePartitionEach | server/tests/common/scenarios/consumer_group_with_multiple_clients_polling_messages_scenario.rs:110-112 | with as many members as partitions, member i holds exactly partition i + 1 |
| ConsumerGroups.GroupValidIsPollReady | server/tests/common/scenarios/consumer_group_with_multiple_clients_polling_messages_scenario.rs:144-162 | a valid group has ascending, in-range holdings and in-range offsets, which is what a poll needs |
| ConsumerGroups.GroupValidAfterAppend | server/tests/common/scenarios/consumer_group_with_multiple_clients_polling_messages_scenario.rs:121-133 | sending messages keeps every group valid |
| ConsumerGroups.EmptyGroupValid | server/tests/common/scenarios/consumer_group_with_multiple_clients_polling_messages_scenario.rs:78-87 | a newly created group is valid |
| ConsumerGroups.TotalLengthAppend | server/tests/common/scenarios/consumer_group_with_multiple_clients_polling_messages_scenario.rs:121-133 | each send adds exactly one message to the topic |
| ConsumerGroups.Route | server/tests/common/scenarios/consumer_group_with_multiple_clients_polling_messages_scenario.rs:128 | every send goes to a partition in 1..n |
| ConsumerGroups.RoundRobinCycle | server/tests/common/scenarios/consumer_group_with_multiple_clients_polling_messages_scenario.rs:190 | n successive keyless sends reach n different partitions, so every partition exactly once |
| ConsumerGroups.PollTarget | server/tests/common/scenarios/consumer_group_with_multiple_clients_polling_messages_scenario.rs:150-151 | a poll reads one of the member's own partitions |
| ConsumerGroups.PollTargetHasUnread | server/tests/common/scenarios/consumer_group_with_multiple_clients_polling_messages_scenario.rs:150-151 | while the member has something unread, its poll reads a partition with an unread message |
| ConsumerGroups.PollPartition | server/tests/common/scenarios/consumer_group_with_multiple_clients_polling_messages_scenario.rs:151-154 | a partition poll succeeds and does not change the members or the assignment |
| ConsumerGroups.PollPartitionReadsFromCommitted | server/tests/common/scenarios/consumer_group_with_multiple_clients_polling_messages_scenario.rs:151-154 | a poll returns min(count, unread) messages from the committed offset, without gaps; auto-commit moves only that partition's offset, past what was returned |
| ConsumerGroups.PollPartitionWhenExhausted | server/tests/common/scenarios/consumer_group_with_multiple_clients_polling_messages_scenario.rs:256-257 | polling a partition that has been read to the end returns nothing and changes nothing |
| ConsumerGroups.PollPartitionKeepsOffsets | server/tests/common/scenarios/consumer_group_with_multiple_clients_polling_messages_scenario.rs:154 | a commit never goes past the end of its log |
| ConsumerGroups.PollNext | server/tests/common/scenarios/consumer_group_with_multiple_clients_polling_messages_scenario.rs:145-156 | a poll does not change the group's members or assignment |
| ConsumerGroups.PollNextKeepsValid | server/tests/common/scenarios/consumer_group_with_multiple_clients_polling_messages_scenario.rs:145-156 | a poll keeps the group valid |
| ConsumerGroups.PollNextWhenExhausted | server/tests/common/scenarios/consumer_group_with_multiple_clients_polling_messages_scenario.rs:256-257 | once a member has nothing unread, a poll returns nothing and leaves the group as it was |
| ConsumerGroups.UnreadZero | server/tests/common/scenarios/consumer_group_with_multiple_clients_polling_messages_scenario.rs:256-257 | with nothing unread, every partition of the member is committed to its end |
| ConsumerGroups.UnreadAfterCommit | server/tests/common/scenarios/consumer_group_with_multiple_clients_polling_messages_scenario.rs:154-161 | committing k messages lowers the unread count by k for a partition list that holds the partition, and by 0 for one that does not |
| ConsumerGroups.PollOneAtATime | server/tests/common/scenarios/consumer_group_with_multiple_clients_polling_messages_scenario.rs:153-161 | a single-message poll with auto-commit returns one message while something is unread and none otherwise, lowering the unread count by what it returns |
| ConsumerGroups.UnreadMessagesLength | server/tests/common/scenarios/consumer_group_with_multiple_clients_polling_messages_scenario.rs:150-161 | the unread messages of a member, partition by partition from each committed offset, are as many as its unread count |
| ConsumerGroups.FirstUnreadAt | server/tests/common/scenarios/consumer_group_with_multiple_clients_polling_messages_scenario.rs:150-154 | committing the first unread message of a member's partitions takes exactly that message off the front of its unread messages |
| ConsumerGroups.PollTargetIsFirstUnread | server/tests/common/scenarios/consumer_group_with_multiple_clients_polling_messages_scenario.rs:150-151 | the partition a poll reads has an unread message, and every partition of the member before it is read to its end |
| ConsumerGroups.PollOneUnread | server/tests/common/scenarios/consumer_group_with_multiple_clients_polling_messages_scenario.rs:153-154 | a one-message poll with auto-commit of a partition with unread messages returns the message at the committed offset and commits one past it |
| ConsumerGroups.PollTakesFirstUnread | server/tests/common/scenarios/consumer_group_with_multiple_clients_polling_messages_scenario.rs:150-154 | a one-message poll with auto-commit returns the first of the member's unread messages, and what stays unread is the rest, in order |
| ConsumerGroups.PollNextTakesFirstUnread | server/tests/common/scenarios/consumer_group_with_multiple_clients_polling_messages_scenario.rs:145-161 | a member's one-message poll succeeds, takes the first of its unread messages (none when all are read), keeps the rest unread in order, and moves no commit outside the member's partitions |
| ConsumerGroups.PollNextWithUnread | server/tests/common/scenarios/consumer_group_with_multiple_clients_polling_messages_scenario.rs:145-161 | the same while the member has something unread |
| ConsumerGroups.PollLeavesOthersUnread | server/tests/common/scenarios/consumer_group_with_multiple_clients_polling_messages_scenario.rs:136-139 | one member's poll leaves every other member's unread count as it was |
| Topics.Topic.constructor | server/tests/common/scenarios/consumer_group_with_multiple_clients_polling_messages_scenario.rs:69-76 | a new topic has the given number of empty partitions, no groups and a round-robin cursor at 0 |
| Topics.Topic.Send | server/tests/common/scenarios/consumer_group_with_multiple_clients_polling_messages_scenario.rs:125-132 | a send appends the message at the next offset of the partition its key routes to; only a keyless send moves the cursor; the groups stay valid |
| Topics.Topic.CreateGroup | server/tests/common/scenarios/consumer_group_with_multiple_clients_polling_messages_scenario.rs:79-87 | creating a group adds an empty group; an id already in use is AlreadyExists |
| Topics.Topic.Join | server/tests/common/scenarios/consumer_group_with_multiple_clients_polling_messages_scenario.rs:89-98 | joining adds the member at the end of the member list once and recomputes the assignment, keeping commits; an unknown group is NotFound |
| Topics.Topic.GetConsumerGroup | server/tests/common/scenarios/consumer_group_with_multiple_clients_polling_messages_scenario.rs:197-204 | the group query succeeds exactly for an existing group and returns its current members, assignment and commits; an unknown group is NotFound |
| Topics.Topic.Poll | server/tests/common/scenarios/consumer_group_with_multiple_clients_polling_messages_scenario.rs:145-160 | a poll returns PollNext's result on the group and stores PollNext's group; an unknown group is NotFound |
| Topics.Topic.ReadAndCommit | server/tests/common/scenarios/consumer_group_with_multiple_clients_polling_messages_scenario.rs:151-154 | reading and committing one partition computes PollPartition |
| Brokers.Broker.constructor | server/tests/common/scenarios/consumer_group_with_multiple_clients_polling_messages_scenario.rs:30-31 | a fresh server has no streams and no topics |
| Brokers.Broker.TopicFor | server/tests/common/scenarios/consumer_group_with_multiple_clients_polling_messages_scenario.rs:126-127 | a topic lookup succeeds exactly for a registered (stream, topic) pair |
| Brokers.Broker.CreateStream | server/tests/common/scenarios/consumer_group_with_multiple_clients_polling_messages_scenario.rs:62-67 | creating a stream registers its id; an id in use is AlreadyExists |
| Brokers.Broker.CreateTopic | server/tests/common/scenarios/consumer_group_with_multiple_clients_polling_messages_scenario.rs:69-76 | creating a topic adds a fresh topic with empty partitions; the error cases are NotFound, AlreadyExists and InvalidState |
| Brokers.Broker.DeleteStream | server/tests/common/scenarios/consumer_group_with_multiple_clients_polling_messages_scenario.rs:40-45 | deleting a stream removes it and all its topics, including their groups and commits; an unknown stream is NotFound |
| ConsumerGroupScenario.IsJoinedAssignment | server/tests/common/scenarios/consumer_group_with_multiple_clients_polling_messages_scenario.rs:100-112 | a map that gives client i partition i is the expected assignment |
| ConsumerGroupScenario.ThreeMembersOnePartitionEach | server/tests/common/scenarios/consumer_group_with_multiple_clients_polling_messages_scenario.rs:95-112 | three distinct clients on three partitions: client i holds exactly partition i |
| ConsumerGroupScenario.EachMemberHoldsOnePartition | server/tests/common/scenarios/consumer_group_with_multiple_clients_polling_messages_scenario.rs:110-112 | the scenario's check accepts exactly when every member holds exactly one partition |
| ConsumerGroupScenario.JoinGroup | server/tests/common/scenarios/consumer_group_with_multiple_clients_polling_messages_scenario.rs:78-112 | creating the group and joining the three clients leaves one group whose members are the clients in join order, with one partition each and no commits; the check passes |
| ConsumerGroupScenario.JoinMember | server/tests/common/scenarios/consumer_group_with_multiple_clients_polling_messages_scenario.rs:96-98 | one client's join appends it to the members and assigns by the new member list |
| ConsumerGroupScenario.JoinedGroupIs | server/tests/common/scenarios/consumer_group_with_multiple_clients_polling_messages_scenario.rs:100-112 | the group snapshot is the three clients with partitions 1, 2 and 3 and no commits, so each member holds one partition |
| ConsumerGroupScenario.InitSystem | server/tests/common/scenarios/consumer_group_with_multiple_clients_polling_messages_scenario.rs:56-113 | set-up creates stream 1 and topic 1 with three empty partitions and joins the clients to group 1; every step succeeds, including after a delete |
| ConsumerGroupScenario.PollMessagesStep | server/tests/common/scenarios/consumer_group_with_multiple_clients_polling_messages_scenario.rs:159-162 | each poll of the keyed loop succeeds and advances the count by what it returns |
| ConsumerGroupScenario.PollReadStep | server/tests/common/scenarios/consumer_group_with_multiple_clients_polling_messages_scenario.rs:159-162 | one poll keeps the messages read so far, followed by what is still unread, equal to what was unread before the loop |
| ConsumerGroupScenario.PollMessages | server/tests/common/scenarios/consumer_group_with_multiple_clients_polling_messages_scenario.rs:144-165 | the 3000 single-message polls return, in order, the front of the client's unread messages; the count returned is min(3000, its unread count), which its unread count drops by; no commit outside its partitions moves and every other member's unread count is unchanged |
| ConsumerGroupScenario.UnreadOfFreshPartition | server/tests/common/scenarios/consumer_group_with_multiple_clients_polling_messages_scenario.rs:136-139 | an uncommitted partition is unread to its full length |
| ConsumerGroupScenario.TotalLengthOfThree | server/tests/common/scenarios/consumer_group_with_multiple_clients_polling_messages_scenario.rs:136-141 | the messages of three partitions are the sum of their lengths |
| ConsumerGroupScenario.KeyedLogs | server/tests/common/scenarios/consumer_group_with_multiple_clients_polling_messages_scenario.rs:121-133 | the keyed sends keep the topic's partition count |
| ConsumerGroupScenario.KeyedPlacement | server/tests/common/scenarios/consumer_group_with_multiple_clients_polling_messages_scenario.rs:121-133 | after the keyed sends of 1..e, partition k + 1 holds at offset j "message-x" for an x in 1..e whose key hashes to k, and within a partition the ids rise with the offset |
| ConsumerGroupScenario.KeyedLogsHoldSent | server/tests/common/scenarios/consumer_group_with_multiple_clients_polling_messages_scenario.rs:121-133 | the keyed sends store exactly the payloads sent, each as often as it was sent |
| ConsumerGroupScenario.KeyedLogsLength | server/tests/common/scenarios/consumer_group_with_multiple_clients_polling_messages_scenario.rs:121-133 | the keyed sends of 1..e store e messages in all |
| ConsumerGroupScenario.AllPayloadsAppend | server/tests/common/scenarios/consumer_group_with_multiple_clients_polling_messages_scenario.rs:132 | a send adds exactly its payload to what the partitions store |
| ConsumerGroupScenario.SentOnce | server/tests/common/scenarios/consumer_group_with_multiple_clients_polling_messages_scenario.rs:122-123 | the keyed sends carry "message-x" exactly once for each x in 1..e and nothing else |
| ConsumerGroupScenario.ReadToEnd | server/tests/common/scenarios/consumer_group_with_multiple_clients_polling_messages_scenario.rs:158-162 | a client of one uncommitted partition that has nothing left unread has read the partition's whole log, which is then committed to its end |
| ConsumerGroupScenario.ReadyToPollAfterSends | server/tests/common/scenarios/consumer_group_with_multiple_clients_polling_messages_scenario.rs:135-139 | after the keyed sends, client i holds partition i alone with nothing committed, and the three logs hold the 1000 messages |
| ConsumerGroupScenario.StillReadyToPoll | server/tests/common/scenarios/consumer_group_with_multiple_clients_polling_messages_scenario.rs:137-139 | one client's polling, which moves only its own partition's commit, leaves the next client ready |
| ConsumerGroupScenario.PollOwnPartition | server/tests/common/scenarios/consumer_group_with_multiple_clients_polling_messages_scenario.rs:144-165 | a client holding one uncommitted partition reads that partition's whole log, in order, and leaves it committed to its end; no other commit moves |
| ConsumerGroupScenario.PollOwnPartitions | server/tests/common/scenarios/consumer_group_with_multiple_clients_polling_messages_scenario.rs:135-139 | the three clients together read the three logs one after another, in order, and leave every partition committed to its end |
| ConsumerGroupScenario.SendUsingEntityIdKey | server/tests/common/scenarios/consumer_group_with_multiple_clients_polling_messages_scenario.rs:121-133 | the keyed sends leave exactly the logs KeyedLogs describes: message x at the next offset of the partition its key routes to, in send order; the groups and the cursor are unchanged |
| ConsumerGroupScenario.ExecuteUsingEntityIdKey | server/tests/common/scenarios/consumer_group_with_multiple_clients_polling_messages_scenario.rs:115-142 | the keyed part delivers the three partitions' logs, so every payload sent exactly once and 1000 messages in all (the assertion), and leaves every partition committed to its end |
| ConsumerGroupScenario.AppendAsExpected | server/tests/common/scenarios/consumer_group_with_multiple_clients_polling_messages_scenario.rs:184-194 | appending the next expected message keeps a partition's log as expected |
| ConsumerGroupScenario.SendKeepsLogsAsExpected | server/tests/common/scenarios/consumer_group_with_multiple_clients_polling_messages_scenario.rs:178-195 | sending entity e to partition ((e - 1) mod 3) + 1 keeps every partition's log as expected |
| ConsumerGroupScenario.SendUsingNoneKey | server/tests/common/scenarios/consumer_group_with_multiple_clients_polling_messages_scenario.rs:177-195 | each keyless send lands on the partition the scenario computes for it; each partition ends with its 1000 expected messages at offsets 0..999 |
| ConsumerGroupScenario.ValidatePollStep | server/tests/common/scenarios/consumer_group_with_multiple_clients_polling_messages_scenario.rs:242-254 | the i-th poll returns one message, at offset i - 1, carrying the partition and entity id start(p) + (i - 1) * 3; the commit moves to i |
| ConsumerGroupScenario.ValidatePollExhausted | server/tests/common/scenarios/consumer_group_with_multiple_clients_polling_messages_scenario.rs:256-257 | after the partition has been read to the end, a poll returns nothing |
| ConsumerGroupScenario.ReadyAfterSends | server/tests/common/scenarios/consumer_group_with_multiple_clients_polling_messages_scenario.rs:197-213 | after the keyless sends, each client holds one partition with its 1000 expected messages and nothing committed |
| ConsumerGroupScenario.StillReady | server/tests/common/scenarios/consumer_group_with_multiple_clients_polling_messages_scenario.rs:211-213 | one client's validation leaves the next client ready for its own |
| ConsumerGroupScenario.ValidateMessagePolling | server/tests/common/scenarios/consumer_group_with_multiple_clients_polling_messages_scenario.rs:216-258 | a client reads exactly its partition's 1000 expected messages in order, with offsets 0..999, then a poll returns nothing; its partition ends committed at 1000 and no other partition's commit moves |
| ConsumerGroupScenario.ExecuteUsingNoneKey | server/tests/common/scenarios/consumer_group_with_multiple_clients_polling_messages_scenario.rs:171-214 | the keyless part: the one-partition check and all three validations pass; each partition holds its 1000 expected messages and ends committed to its end |
| ConsumerGroupScenario.DeleteScenarioStream | server/tests/common/scenarios/consumer_group_with_multiple_clients_polling_messages_scenario.rs:40-45 | deleting stream 1 from a server that holds only its topic leaves no streams and no topics |
| ConsumerGroupScenario.RunUsingEntityIdKey | server/tests/common/scenarios/consumer_group_with_multiple_clients_polling_messages_scenario.rs:38-45 | set-up, the keyed part and the stream delete on an empty server: every payload sent is delivered exactly once, and the server is empty again |
| ConsumerGroupScenario.Run | server/tests/common/scenarios/consumer_group_with_multiple_clients_polling_messages_scenario.rs:29-49 | the whole scenario succeeds on a fresh server and leaves just stream 1 with topic 1, each partition holding its 1000 expected messages and committed to its end |

## Left out

- Socket I/O is not modelled. This covers sending the command and receiving the datagram. `HandleGetStreams` starts from the filled buffer and the number of bytes received.
- The internals of the status handler are not modelled. Status byte 0 is success, and any other byte is `StatusError` carrying that byte.
- Logging (`info!`) is not modelled. The handler returns the sorted listing instead of printing it.
- A header or name that runs past the received bytes makes the source's slicing panic. Here it is `MalformedPayload`. An invalid UTF-8 name makes the source's `unwrap` panic. Here it is `InvalidName`. These follow the code's evident intent that such a response is an error.
- A receive of 0 bytes is `MalformedPayload`. In the source, the slice `&buffer[1..payload_length]` at line 21 panics in that case, before `payload_length - 1` at line 22 could underflow.
- The name check is the well-formed UTF-8 byte syntax of section 4 of RFC 3629, which is what `from_utf8` accepts. Converting the bytes to a string is not modelled, so names are kept as bytes.
- The server's hash for entity id keys is not modelled. It is the parameter `keyHash`. The keyed part therefore proves what holds for every hash: each partition's log is read whole and in order, every payload sent is delivered exactly once, and 1000 messages are read in all.
- ConsumerGroups.PollTarget: the server's choice of partition when a member holds several is not modelled. The model reads the first of the member's partitions, in ascending order, that has unread messages. The scenario gives every member one partition, so its results do not depend on this choice.
- For the server's partition-assignment algorithm, the model uses round robin over the ordered member list. What the scenario relies on is proved about it: exact coverage, disjointness, balance, and one partition each with three members.
- Leaving a group, rebalancing on leave, and polls by partition id or by offset are not modelled. The scenario uses only joins and "next" polls.
- Concurrency and asynchrony are not modelled. This covers tokio, the test server process, `sleep`, the client factory and `get_me`. Client ids are parameters of `Run`.
- Stream and topic names are not modelled, and neither is the client's `Identifier`. Streams and topics are addressed by their numeric ids.
- Payload text is not modelled. The "message-…" strings are kept as the numbers they are formatted from (`Plain` and `Extended`), so string formatting and parsing are not modelled.
- `ScenarioArithmetic` is fixed to the scenario's three partitions. The server model (`Topics`, `ConsumerGroups`, `GroupAssignment`) is general in the partition count.
- `u32` wrap-around of the scenario's counters is not modelled. The values stay below 10000.
- ConsumerGroupScenario.Run: the scenario's test server and clients are replaced by a fresh `Broker` and three client ids. Only the keyless part's final state is part of its postcondition. The keyed part's facts are in the postcondition of RunUsingEntityIdKey.
