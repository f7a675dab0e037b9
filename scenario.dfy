/**
 * The consumer-group scenario, run against the server model: three clients
 * join group 1 on topic 1 of stream 1 (three partitions); 1000 messages
 * keyed by entity id are sent and polled back one at a time; the stream is
 * deleted and set up again; 3000 keyless messages are sent and each client
 * checks that its partition returns exactly the expected messages in
 * order, then nothing. Each of the scenario's assertions is an `assert`
 * here, proved for every triple of distinct client ids and every keyed
 * routing hash.
 */
module ConsumerGroupScenario {
  import opened GroupAssignment
  import opened ConsumerGroups
  import opened Topics
  import opened Brokers
  import opened ScenarioArithmetic

  /** Group 1 on topic t, with the three clients as members in join order. */
  predicate JoinedGroup(t: Topic, c1: nat, c2: nat, c3: nat)
    reads t
  {
    && t.Valid()
    && t.partitionsCount == PartitionsCount
    && ConsumerGroupId in t.groups
    && t.groups[ConsumerGroupId].members == [c1, c2, c3]
  }

  /** The assignment of the three clients once they have joined: client i holds partition i. */
  function JoinedAssignment(c1: nat, c2: nat, c3: nat): map<nat, seq<nat>>
  {
    map[c1 := [1], c2 := [2], c3 := [3]]
  }

  /** The unread messages of member across its partitions. */
  function MemberUnread(g: Group, member: nat, logs: seq<seq<Message>>): nat
    requires PollReady(g, logs) && member in g.assignment
  {
    Unread(g, g.assignment[member], logs)
  }

  /** A map on the three clients that gives client i partition i is the joined assignment. */
  lemma IsJoinedAssignment(a: map<nat, seq<nat>>, c1: nat, c2: nat, c3: nat)
    requires a.Keys == {c1, c2, c3} && a[c1] == [1] && a[c2] == [2] && a[c3] == [3]
    ensures a == JoinedAssignment(c1, c2, c3)
  {
    var b := JoinedAssignment(c1, c2, c3);
    assert a.Keys == b.Keys;
    forall k | k in a
      ensures a[k] == b[k]
    {
    }
  }

  lemma MembersOfThree(c1: nat, c2: nat, c3: nat)
    ensures (set x | x in [c1, c2, c3]) == {c1, c2, c3}
  {
    assert forall x :: x in [c1, c2, c3] <==> x == c1 || x == c2 || x == c3;
  }

  /** Three clients on three partitions: client i holds exactly partition i. */
  lemma ThreeMembersOnePartitionEach(c1: nat, c2: nat, c3: nat)
    requires c1 != c2 && c1 != c3 && c2 != c3
    ensures Distinct([c1, c2, c3])
    ensures Assignment([c1, c2, c3], PartitionsCount) == JoinedAssignment(c1, c2, c3)
  {
    var members := [c1, c2, c3];
    var a := Assignment(members, PartitionsCount);
    MembersOfThree(c1, c2, c3);
    OnePartitionEach(members, PartitionsCount, 0);
    OnePartitionEach(members, PartitionsCount, 1);
    OnePartitionEach(members, PartitionsCount, 2);
    IsJoinedAssignment(a, c1, c2, c3);
  }

  /**
   * The scenario's check on a group snapshot: every member holds exactly
   * one partition. It stops at the first member that does not.
   */
  method EachMemberHoldsOnePartition(g: Group) returns (ok: bool)
    ensures ok <==> forall i :: 0 <= i < |g.members| ==> g.members[i] in g.assignment && |g.assignment[g.members[i]]| == 1
  {
    var i := 0;
    while i < |g.members|
      invariant 0 <= i <= |g.members|
      invariant forall j :: 0 <= j < i ==> g.members[j] in g.assignment && |g.assignment[g.members[j]]| == 1
    {
      var member := g.members[i];
      if member !in g.assignment || |g.assignment[member]| != 1 {
        return false;
      }
      i := i + 1;
    }
    return true;
  }

  /**
   * The group part of the set-up on a new topic of three partitions:
   * create consumer group 1, let the three clients join, and check the
   * snapshot: each client holds exactly one partition.
   */
  method JoinGroup(t: Topic, c1: nat, c2: nat, c3: nat)
    requires t.Valid() && t.partitionsCount == PartitionsCount && t.groups == map[]
    requires c1 != c2 && c1 != c3 && c2 != c3
    modifies t
    ensures JoinedGroup(t, c1, c2, c3)
    ensures t.partitions == old(t.partitions) && t.cursor == old(t.cursor)
    ensures t.groups == map[ConsumerGroupId := Group([c1, c2, c3], JoinedAssignment(c1, c2, c3), map[])]
  {
    var r := t.CreateGroup(ConsumerGroupId);
    assert r.Ok?;
    assert Assignment([], PartitionsCount) == map[];
    JoinMember(t, [], c1);
    assert [] + [c1] == [c1];
    JoinMember(t, [c1], c2);
    assert [c1] + [c2] == [c1, c2];
    JoinMember(t, [c1, c2], c3);
    assert [c1, c2] + [c3] == [c1, c2, c3];
    var info := t.GetConsumerGroup(ConsumerGroupId);
    assert info.Ok?;
    JoinedGroupIs(info.value, c1, c2, c3);
    var ok := EachMemberHoldsOnePartition(info.value);
    assert ok;
  }

  /**
   * One client joining group 1, which so far has the given members and no
   * commits: the join succeeds, the client is appended to the members and
   * the assignment is recomputed for the new member list.
   */
  method JoinMember(t: Topic, members: seq<nat>, member: nat)
    requires t.Valid() && Distinct(members) && member !in members
    requires t.groups == map[ConsumerGroupId := Group(members, Assignment(members, t.partitionsCount), map[])]
    modifies t
    ensures t.Valid() && t.partitions == old(t.partitions) && t.cursor == old(t.cursor)
    ensures Distinct(members + [member])
    ensures t.groups == map[ConsumerGroupId := Group(members + [member], Assignment(members + [member], t.partitionsCount), map[])]
  {
    var r := t.Join(ConsumerGroupId, member);
    assert r.Ok?;
  }

  /**
   * The group the three joins produce: its members in join order, the
   * joined assignment and no commits; each member holds one partition.
   */
  lemma JoinedGroupIs(g: Group, c1: nat, c2: nat, c3: nat)
    requires c1 != c2 && c1 != c3 && c2 != c3
    requires g.members == [c1, c2, c3] && g.offsets == map[]
    requires Distinct(g.members) && g.assignment == Assignment(g.members, PartitionsCount)
    ensures g == Group([c1, c2, c3], JoinedAssignment(c1, c2, c3), map[])
    ensures forall i :: 0 <= i < |g.members| ==> g.members[i] in g.assignment && |g.assignment[g.members[i]]| == 1
  {
    ThreeMembersOnePartitionEach(c1, c2, c3);
  }

  /**
   * The set-up: create stream 1 and its topic 1 with three partitions, then
   * the consumer group with the three clients in it.
   */
  method InitSystem(broker: Broker, keyHash: nat -> nat, c1: nat, c2: nat, c3: nat) returns (t: Topic)
    requires broker.Valid() && StreamId !in broker.streams
    requires c1 != c2 && c1 != c3 && c2 != c3
    modifies broker
    ensures broker.Valid() && broker.streams == old(broker.streams) + {StreamId}
    ensures broker.topics == old(broker.topics)[(StreamId, TopicId) := t]
    ensures fresh(t) && JoinedGroup(t, c1, c2, c3)
    ensures t.partitions == seq(PartitionsCount, _ => []) && t.cursor == 0
    ensures t.groups == map[ConsumerGroupId := Group([c1, c2, c3], JoinedAssignment(c1, c2, c3), map[])]
  {
    var r := broker.CreateStream(StreamId);
    assert r.Ok?;
    r := broker.CreateTopic(StreamId, TopicId, PartitionsCount, keyHash);
    assert r.Ok?;
    var found := broker.TopicFor(StreamId, TopicId);
    assert found.Ok?;
    t := found.value;
    JoinGroup(t, c1, c2, c3);
  }

  /**
   * Where a client's polling loop stands after polls single-message polls
   * from group g0: the group g has the same members and assignment, the
   * messages read so far followed by what is still unread for the member
   * are the member's unread messages in g0, there are total of them, which
   * is the member's unread count capped by polls, no commit outside the
   * member's partitions has moved, and every other member's unread count
   * is as it was.
   */
  ghost predicate PollProgress(g0: Group, g: Group, member: nat, logs: seq<seq<Message>>, read: seq<Message>, total: nat, polls: nat)
  {
    && PollReady(g0, logs) && PollReady(g, logs)
    && g.members == g0.members && g.assignment == g0.assignment && member in g0.assignment
    && read + UnreadMessages(g, g0.assignment[member], logs) == UnreadMessages(g0, g0.assignment[member], logs)
    && |read| == total
    && total == Min(polls, MemberUnread(g0, member, logs))
    && MemberUnread(g, member, logs) + total == MemberUnread(g0, member, logs)
    && (forall q :: q !in g0.assignment[member] ==> Committed(g, q) == Committed(g0, q))
    && forall other :: other in g0.assignment && other != member ==>
         MemberUnread(g, other, logs) == MemberUnread(g0, other, logs)
  }

  lemma ConcatAssoc<T>(a: seq<T>, b: seq<T>, c: seq<T>)
    ensures (a + b) + c == a + (b + c)
  {
  }

  /**
   * A single-message poll keeps the messages read so far, followed by what
   * is still unread, equal to what was unread at the start, and moves no
   * commit outside the member's partitions.
   */
  lemma PollReadStep(g0: Group, g: Group, member: nat, logs: seq<seq<Message>>, read: seq<Message>)
    requires PollReady(g0, logs) && PollReady(g, logs) && member in g.assignment && g.assignment[member] != []
    requires g.assignment == g0.assignment
    requires read + UnreadMessages(g, g0.assignment[member], logs) == UnreadMessages(g0, g0.assignment[member], logs)
    requires forall q :: q !in g0.assignment[member] ==> Committed(g, q) == Committed(g0, q)
    ensures var o := PollNext(g, member, 1, true, logs);
            && o.result.Ok?
            && (read + o.result.value) + UnreadMessages(o.group, g0.assignment[member], logs)
               == UnreadMessages(g0, g0.assignment[member], logs)
            && forall q :: q !in g0.assignment[member] ==> Committed(o.group, q) == Committed(g0, q)
  {
    PollNextTakesFirstUnread(g, member, logs);
    var o := PollNext(g, member, 1, true, logs);
    ConcatAssoc(read, o.result.value, UnreadMessages(o.group, g.assignment[member], logs));
  }

  /**
   * One single-message poll with auto-commit inside the keyed part's
   * polling loop succeeds, keeps the group valid, and advances the loop's
   * progress by one poll and by the message it returns.
   */
  lemma PollMessagesStep(g0: Group, g: Group, member: nat, logs: seq<seq<Message>>, read: seq<Message>, total: nat, polls: nat)
    requires GroupValid(g, logs) && LogsValid(logs)
    requires PollProgress(g0, g, member, logs, read, total, polls) && g.assignment[member] != []
    ensures var o := PollNext(g, member, 1, true, logs);
            && o.result.Ok? && GroupValid(o.group, logs)
            && PollProgress(g0, o.group, member, logs, read + o.result.value, total + |o.result.value|, polls + 1)
  {
    PollNextKeepsValid(g, member, 1, true, logs);
    var o := PollNext(g, member, 1, true, logs);
    GroupValidIsPollReady(o.group, logs);
    PollOneAtATime(g, member, logs);
    PollReadStep(g0, g, member, logs, read);
    forall other | other in g0.assignment && other != member
      ensures MemberUnread(o.group, other, logs) == MemberUnread(g, other, logs)
    {
      PollLeavesOthersUnread(g, member, other, 1, true, logs);
    }
  }

  /**
   * One client's polling in the keyed part: 3000 polls of one message with
   * auto-commit, counting what comes back. The messages read, in the order
   * read, followed by what the member still has unread, are the member's
   * unread messages from before; their number is the member's unread count,
   * up to 3000, and the member's unread count drops by exactly that much.
   * No commit outside the member's partitions moves, and every other
   * member's unread count stays as it was.
   */
  method PollMessages(t: Topic, member: nat) returns (total: nat, ghost read: seq<Message>)
    requires t.Valid() && ConsumerGroupId in t.groups
    requires member in t.groups[ConsumerGroupId].assignment && t.groups[ConsumerGroupId].assignment[member] != []
    modifies t
    ensures t.Valid() && t.partitions == old(t.partitions) && t.cursor == old(t.cursor)
    ensures ConsumerGroupId in t.groups
    ensures t.groups.Keys == old(t.groups).Keys
    ensures forall id :: id in t.groups && id != ConsumerGroupId ==> t.groups[id] == old(t.groups)[id]
    ensures t.groups[ConsumerGroupId].members == old(t.groups[ConsumerGroupId].members)
    ensures t.groups[ConsumerGroupId].assignment == old(t.groups[ConsumerGroupId].assignment)
    ensures PollReady(old(t.groups[ConsumerGroupId]), t.partitions) && PollReady(t.groups[ConsumerGroupId], t.partitions)
    ensures read + UnreadMessages(t.groups[ConsumerGroupId], t.groups[ConsumerGroupId].assignment[member], t.partitions)
            == UnreadMessages(old(t.groups[ConsumerGroupId]), t.groups[ConsumerGroupId].assignment[member], t.partitions)
    ensures |read| == total
    ensures total == Min(PartitionsCount * MessagesCount, MemberUnread(old(t.groups[ConsumerGroupId]), member, t.partitions))
    ensures MemberUnread(t.groups[ConsumerGroupId], member, t.partitions) + total
            == MemberUnread(old(t.groups[ConsumerGroupId]), member, t.partitions)
    ensures forall q :: q !in t.groups[ConsumerGroupId].assignment[member] ==>
              Committed(t.groups[ConsumerGroupId], q) == Committed(old(t.groups[ConsumerGroupId]), q)
    ensures forall other :: other in t.groups[ConsumerGroupId].assignment && other != member ==>
              MemberUnread(t.groups[ConsumerGroupId], other, t.partitions)
              == MemberUnread(old(t.groups[ConsumerGroupId]), other, t.partitions)
  {
    ghost var g0 := t.groups[ConsumerGroupId];
    ghost var logs := t.partitions;
    GroupValidIsPollReady(g0, logs);
    total := 0;
    read := [];
    var i := 1;
    while i <= PartitionsCount * MessagesCount
      invariant 1 <= i <= PartitionsCount * MessagesCount + 1
      invariant t.Valid() && t.partitions == logs && t.cursor == old(t.cursor)
      invariant ConsumerGroupId in t.groups
      invariant t.groups == old(t.groups)[ConsumerGroupId := t.groups[ConsumerGroupId]]
      invariant PollProgress(g0, t.groups[ConsumerGroupId], member, logs, read, total, i - 1)
    {
      PollMessagesStep(g0, t.groups[ConsumerGroupId], member, logs, read, total, i - 1);
      ghost var before := t.groups;
      var messages := t.Poll(ConsumerGroupId, member, 1, true);
      MapUpdateTwice(old(t.groups), ConsumerGroupId, before[ConsumerGroupId], t.groups[ConsumerGroupId]);
      assert messages.Ok?;
      total := total + |messages.value|;
      read := read + messages.value;
      i := i + 1;
    }
  }

  /** The payloads of a log, in offset order. */
  function Payloads(log: seq<Message>): seq<Payload>
  {
    seq(|log|, j requires 0 <= j < |log| => log[j].payload)
  }

  lemma PayloadsAppend(a: seq<Message>, b: seq<Message>)
    ensures Payloads(a + b) == Payloads(a) + Payloads(b)
  {
  }

  /** Every payload stored across the partition logs, counted with multiplicity. */
  function AllPayloads(logs: seq<seq<Message>>): multiset<Payload>
  {
    if logs == [] then multiset{} else multiset(Payloads(logs[0])) + AllPayloads(logs[1..])
  }

  /** Appending one message to one log adds exactly its payload to what is stored. */
  lemma {:induction false} AllPayloadsAppend(logs: seq<seq<Message>>, k: nat, m: Message)
    requires k < |logs|
    ensures AllPayloads(logs[k := logs[k] + [m]]) == AllPayloads(logs) + multiset{m.payload}
  {
    var logs' := logs[k := logs[k] + [m]];
    if k > 0 {
      assert logs'[1..] == logs[1..][k - 1 := logs[k] + [m]];
      AllPayloadsAppend(logs[1..], k - 1, m);
    } else {
      assert logs'[1..] == logs[1..];
      PayloadsAppend(logs[0], [m]);
    }
  }

  /** n empty logs store nothing. */
  lemma {:induction false} EmptyLogsHoldNothing(n: nat)
    ensures TotalLength(seq(n, _ => [])) == 0 && AllPayloads(seq(n, _ => [])) == multiset{}
  {
    if n > 0 {
      var logs: seq<seq<Message>> := seq(n, _ => []);
      assert logs[1..] == seq(n - 1, _ => []);
      EmptyLogsHoldNothing(n - 1);
    }
  }

  /** Three logs store what their concatenation holds. */
  lemma AllPayloadsOfThree(logs: seq<seq<Message>>)
    requires |logs| == 3
    ensures AllPayloads(logs) == multiset(Payloads(logs[0] + logs[1] + logs[2]))
  {
    assert logs[1..][1..][1..] == [];
    var a, b, c := logs[0], logs[1], logs[2];
    assert AllPayloads(logs[1..][1..]) == multiset(Payloads(c)) + AllPayloads(logs[1..][1..][1..]);
    assert AllPayloads(logs[1..]) == multiset(Payloads(b)) + AllPayloads(logs[1..][1..]);
    assert AllPayloads(logs) == multiset(Payloads(a)) + multiset(Payloads(b)) + multiset(Payloads(c));
    PayloadsAppend(a, b);
    PayloadsAppend(a + b, c);
    assert Payloads(a + b + c) == Payloads(a) + Payloads(b) + Payloads(c);
  }

  /** The payloads of the keyed sends of entity ids 1..e, one each. */
  function SentPayloads(e: nat): multiset<Payload>
  {
    multiset(seq(e, j requires 0 <= j < e => Plain(j + 1)))
  }

  /** The sends of 1..e are those of 1..e-1 and one more, of e. */
  lemma SentPayloadsStep(e: nat)
    requires e > 0
    ensures SentPayloads(e) == SentPayloads(e - 1) + multiset{Plain(e)}
  {
    var sent, before := seq(e, j requires 0 <= j < e => Plain(j + 1)), seq(e - 1, j requires 0 <= j < e - 1 => Plain(j + 1));
    assert sent == before + [Plain(e)];
  }

  /** The keyed sends of 1..e carry "message-x" once for each x in 1..e, and nothing else. */
  lemma {:induction false} SentOnce(e: nat, payload: Payload)
    ensures SentPayloads(e)[payload] == if payload.Plain? && 1 <= payload.entityId <= e then 1 else 0
  {
    if e > 0 {
      SentPayloadsStep(e);
      SentOnce(e - 1, payload);
    }
  }

  /**
   * The partition logs after the keyed sends of entity ids 1..e to n fresh
   * partitions, one message each, in order, to the partition the key routes to.
   */
  function KeyedLogs(e: nat, n: nat, keyHash: nat -> nat): (logs: seq<seq<Message>>)
    requires n > 0
    ensures |logs| == n
  {
    if e == 0 then seq(n, _ => [])
    else
      var prev := KeyedLogs(e - 1, n, keyHash);
      var q := Route(EntityIdKey(e), 0, n, keyHash);
      prev[q - 1 := prev[q - 1] + [Message(|prev[q - 1]|, Plain(e))]]
  }

  /**
   * Partition k + 1 of logs holds at offset j "message-x" for an x in 1..e
   * whose key hashes to k.
   */
  predicate PlacedByKey(logs: seq<seq<Message>>, e: nat, n: nat, keyHash: nat -> nat)
    requires |logs| == n
  {
    forall k, j :: 0 <= k < n && 0 <= j < |logs[k]| ==>
      && logs[k][j].offset == j && logs[k][j].payload.Plain?
      && 1 <= logs[k][j].payload.entityId <= e
      && keyHash(logs[k][j].payload.entityId) % n == k
  }

  /** Within each log the entity ids rise with the offset. */
  predicate RisingIds(logs: seq<seq<Message>>)
  {
    forall k, j, j' :: 0 <= k < |logs| && 0 <= j < j' < |logs[k]| ==>
      logs[k][j].payload.entityId < logs[k][j'].payload.entityId
  }

  /** The keyed send of e after those of 1..e - 1 keeps every message where it belongs. */
  lemma PlacementStep(prev: seq<seq<Message>>, e: nat, n: nat, keyHash: nat -> nat)
    requires n > 0 && e > 0 && |prev| == n && PlacedByKey(prev, e - 1, n, keyHash) && RisingIds(prev)
    ensures var q := Route(EntityIdKey(e), 0, n, keyHash);
            var logs := prev[q - 1 := prev[q - 1] + [Message(|prev[q - 1]|, Plain(e))]];
            PlacedByKey(logs, e, n, keyHash) && RisingIds(logs)
  {
    var q := Route(EntityIdKey(e), 0, n, keyHash);
    var logs: seq<seq<Message>> := prev[q - 1 := prev[q - 1] + [Message(|prev[q - 1]|, Plain(e))]];
    forall k: nat, j: nat | k < n && j < |logs[k]|
      ensures logs[k][j].offset == j && logs[k][j].payload.Plain?
      ensures 1 <= logs[k][j].payload.entityId <= e && keyHash(logs[k][j].payload.entityId) % n == k
    {
      if k != q - 1 || j < |prev[k]| {
        assert logs[k][j] == prev[k][j];
      }
    }
    forall k: nat, j: nat, j': nat | k < n && j < j' < |logs[k]|
      ensures logs[k][j].payload.entityId < logs[k][j'].payload.entityId
    {
      if k != q - 1 || j' < |prev[k]| {
        assert logs[k][j] == prev[k][j] && logs[k][j'] == prev[k][j'];
      } else {
        assert logs[k][j] == prev[k][j];
      }
    }
  }

  /**
   * Where the keyed sends of 1..e put each message: in partition k + 1 at
   * offset j sits "message-x" for an x in 1..e whose key hashes to k, and
   * within a partition the entity ids rise with the offset.
   */
  lemma {:induction false} KeyedPlacement(e: nat, n: nat, keyHash: nat -> nat)
    requires n > 0
    ensures PlacedByKey(KeyedLogs(e, n, keyHash), e, n, keyHash) && RisingIds(KeyedLogs(e, n, keyHash))
  {
    if e > 0 {
      KeyedPlacement(e - 1, n, keyHash);
      PlacementStep(KeyedLogs(e - 1, n, keyHash), e, n, keyHash);
    }
  }

  /** The keyed sends of 1..e store every payload sent, exactly as sent. */
  lemma {:induction false} KeyedLogsHoldSent(e: nat, n: nat, keyHash: nat -> nat)
    requires n > 0
    ensures AllPayloads(KeyedLogs(e, n, keyHash)) == SentPayloads(e)
  {
    if e == 0 {
      EmptyLogsHoldNothing(n);
    } else {
      KeyedLogsHoldSent(e - 1, n, keyHash);
      var prev := KeyedLogs(e - 1, n, keyHash);
      var q := Route(EntityIdKey(e), 0, n, keyHash);
      AllPayloadsAppend(prev, q - 1, Message(|prev[q - 1]|, Plain(e)));
      SentPayloadsStep(e);
    }
  }

  /** The keyed sends of 1..e store e messages in all. */
  lemma {:induction false} KeyedLogsLength(e: nat, n: nat, keyHash: nat -> nat)
    requires n > 0
    ensures TotalLength(KeyedLogs(e, n, keyHash)) == e
  {
    if e == 0 {
      EmptyLogsHoldNothing(n);
    } else {
      KeyedLogsLength(e - 1, n, keyHash);
      var prev := KeyedLogs(e - 1, n, keyHash);
      var q := Route(EntityIdKey(e), 0, n, keyHash);
      TotalLengthAppend(prev, q - 1, Message(|prev[q - 1]|, Plain(e)));
    }
  }

  /** With nothing of it committed, a single partition's unread messages are its whole log. */
  lemma UnreadOfFreshPartition(g: Group, p: nat, logs: seq<seq<Message>>)
    requires Committed(g, p) == 0 && 1 <= p <= |logs|
    ensures InRange([p], |logs|) && Unread(g, [p], logs) == |logs[p - 1]|
    ensures UnreadMessages(g, [p], logs) == logs[p - 1]
  {
    assert InRange([p], |logs|);
    assert [p][1..] == [];
    assert logs[p - 1][0..] == logs[p - 1];
  }

  /**
   * A client of the single partition p that started with nothing of p
   * committed and has nothing left unread has read p's whole log, and p is
   * committed to its end.
   */
  lemma ReadToEnd(g0: Group, g: Group, p: nat, logs: seq<seq<Message>>, read: seq<Message>)
    requires PollReady(g, logs) && 1 <= p <= |logs| && Committed(g0, p) == 0
    requires read + UnreadMessages(g, [p], logs) == UnreadMessages(g0, [p], logs)
    requires InRange([p], |logs|) && Unread(g, [p], logs) == 0
    ensures read == logs[p - 1] && Committed(g, p) == |logs[p - 1]|
  {
    UnreadMessagesLength(g, [p], logs);
    UnreadOfFreshPartition(g0, p, logs);
    assert read + [] == read;
    UnreadZero(g, [p], logs, p);
  }

  lemma TotalLengthOfThree(logs: seq<seq<Message>>)
    requires |logs| == 3
    ensures TotalLength(logs) == |logs[0]| + |logs[1]| + |logs[2]|
  {
    assert TotalLength(logs[1..][1..][1..]) == 0;
    assert TotalLength(logs[1..][1..]) == |logs[2]|;
  }

  /**
   * What one client's polling in the keyed part relies on: the client holds
   * the single partition p, nothing of p is committed yet, and p's log is
   * short enough for the 3000 polls to reach its end.
   */
  predicate ReadyToPoll(g: Group, logs: seq<seq<Message>>, client: nat, p: nat)
  {
    && client in g.assignment && g.assignment[client] == [p]
    && 1 <= p <= |logs| && Committed(g, p) == 0 && |logs[p - 1]| <= PartitionsCount * MessagesCount
  }

  /**
   * Right after the keyed sends, with the three clients joined and nothing
   * committed, client i is ready to poll partition i, and the three logs
   * hold all the messages sent.
   */
  lemma ReadyToPollAfterSends(g: Group, logs: seq<seq<Message>>, c1: nat, c2: nat, c3: nat)
    requires c1 != c2 && c1 != c3 && c2 != c3
    requires g.assignment == JoinedAssignment(c1, c2, c3) && g.offsets == map[]
    requires |logs| == PartitionsCount && TotalLength(logs) == MessagesCount
    ensures ReadyToPoll(g, logs, c1, 1) && ReadyToPoll(g, logs, c2, 2) && ReadyToPoll(g, logs, c3, 3)
    ensures |logs[0]| + |logs[1]| + |logs[2]| == MessagesCount
  {
    TotalLengthOfThree(logs);
  }

  /** A poll that left partition p's commit and the assignment alone leaves a client of p ready. */
  lemma StillReadyToPoll(g: Group, g': Group, logs: seq<seq<Message>>, client: nat, p: nat)
    requires ReadyToPoll(g, logs, client, p)
    requires g'.assignment == g.assignment && Committed(g', p) == Committed(g, p)
    ensures ReadyToPoll(g', logs, client, p)
  {
  }

  /**
   * One client's polling in the keyed part when it holds the single
   * partition p and nothing of p is committed yet: it reads p's whole log,
   * in order, and leaves p committed to its end; no other partition's
   * commit moves.
   */
  method PollOwnPartition(t: Topic, client: nat, p: nat) returns (total: nat, ghost read: seq<Message>)
    requires t.Valid() && ConsumerGroupId in t.groups && ReadyToPoll(t.groups[ConsumerGroupId], t.partitions, client, p)
    modifies t
    ensures t.Valid() && t.partitions == old(t.partitions) && t.cursor == old(t.cursor)
    ensures ConsumerGroupId in t.groups
    ensures t.groups.Keys == old(t.groups).Keys
    ensures forall id :: id in t.groups && id != ConsumerGroupId ==> t.groups[id] == old(t.groups)[id]
    ensures t.groups[ConsumerGroupId].members == old(t.groups[ConsumerGroupId].members)
    ensures t.groups[ConsumerGroupId].assignment == old(t.groups[ConsumerGroupId].assignment)
    ensures read == t.partitions[p - 1] && total == |read|
    ensures Committed(t.groups[ConsumerGroupId], p) == |t.partitions[p - 1]|
    ensures forall q :: q != p ==> Committed(t.groups[ConsumerGroupId], q) == Committed(old(t.groups[ConsumerGroupId]), q)
  {
    ghost var g0 := t.groups[ConsumerGroupId];
    ghost var logs := t.partitions;
    GroupValidIsPollReady(g0, logs);
    UnreadOfFreshPartition(g0, p, logs);
    total, read := PollMessages(t, client);
    ReadToEnd(g0, t.groups[ConsumerGroupId], p, logs, read);
    assert forall q :: q != p ==> q !in [p];
  }

  /** The group has committed every partition to the end of its log. */
  predicate CommittedToEnd(g: Group, logs: seq<seq<Message>>)
  {
    forall p :: 1 <= p <= |logs| ==> Committed(g, p) == |logs[p - 1]|
  }

  lemma ThreeCommittedToEnd(g: Group, logs: seq<seq<Message>>)
    requires |logs| == 3
    requires Committed(g, 1) == |logs[0]| && Committed(g, 2) == |logs[1]| && Committed(g, 3) == |logs[2]|
    ensures CommittedToEnd(g, logs)
  {
    forall p | 1 <= p <= |logs|
      ensures Committed(g, p) == |logs[p - 1]|
    {
      if p == 1 {
      } else if p == 2 {
      } else {
        assert p == 3;
      }
    }
  }

  /** The keyed sends: entity ids 1..1000 as keys, each to the partition its key routes to. */
  method SendUsingEntityIdKey(t: Topic)
    requires t.Valid() && t.partitions == seq(t.partitionsCount, _ => [])
    modifies t
    ensures t.Valid() && t.groups == old(t.groups) && t.cursor == old(t.cursor)
    ensures t.partitions == KeyedLogs(MessagesCount, t.partitionsCount, t.keyHash)
  {
    var e := 1;
    while e <= MessagesCount
      invariant 1 <= e <= MessagesCount + 1
      invariant t.Valid() && t.groups == old(t.groups) && t.cursor == old(t.cursor)
      invariant t.partitions == KeyedLogs(e - 1, t.partitionsCount, t.keyHash)
    {
      var partitionId := t.Send(EntityIdKey(e), Plain(e));
      e := e + 1;
    }
  }

  /**
   * The keyed part's polling: client i, holding partition i alone, reads
   * partition i's whole log; together the three read every log, in order,
   * and leave every partition committed to its end.
   */
  method PollOwnPartitions(t: Topic, c1: nat, c2: nat, c3: nat) returns (total: nat, ghost delivered: seq<Message>)
    requires t.Valid() && ConsumerGroupId in t.groups && |t.partitions| == PartitionsCount
    requires ReadyToPoll(t.groups[ConsumerGroupId], t.partitions, c1, 1)
    requires ReadyToPoll(t.groups[ConsumerGroupId], t.partitions, c2, 2)
    requires ReadyToPoll(t.groups[ConsumerGroupId], t.partitions, c3, 3)
    modifies t
    ensures t.Valid() && t.partitions == old(t.partitions) && ConsumerGroupId in t.groups
    ensures delivered == t.partitions[0] + t.partitions[1] + t.partitions[2] && total == |delivered|
    ensures Committed(t.groups[ConsumerGroupId], 1) == |t.partitions[0]|
    ensures Committed(t.groups[ConsumerGroupId], 2) == |t.partitions[1]|
    ensures Committed(t.groups[ConsumerGroupId], 3) == |t.partitions[2]|
  {
    ghost var g0 := t.groups[ConsumerGroupId];
    ghost var logs := t.partitions;
    var n1, r1 := PollOwnPartition(t, c1, 1);
    ghost var g1 := t.groups[ConsumerGroupId];
    StillReadyToPoll(g0, g1, logs, c2, 2);
    StillReadyToPoll(g0, g1, logs, c3, 3);
    var n2, r2 := PollOwnPartition(t, c2, 2);
    ghost var g2 := t.groups[ConsumerGroupId];
    StillReadyToPoll(g1, g2, logs, c3, 3);
    var n3, r3 := PollOwnPartition(t, c3, 3);
    ghost var g3 := t.groups[ConsumerGroupId];
    assert Committed(g3, 1) == Committed(g2, 1) == Committed(g1, 1);
    assert Committed(g3, 2) == Committed(g2, 2);
    total := n1 + n2 + n3;
    delivered := r1 + r2 + r3;
    LengthOfThree(r1, r2, r3);
  }

  lemma LengthOfThree<T>(a: seq<T>, b: seq<T>, c: seq<T>)
    ensures |a + b + c| == |a| + |b| + |c|
  {
  }

  /**
   * The keyed part: entity ids 1..1000 are sent as keys, and the three
   * clients' polling reads back exactly 1000 messages in all. Client i
   * reads the whole log of partition i, in order, so the messages delivered
   * carry every payload sent exactly once, and every partition ends
   * committed to its end.
   */
  method ExecuteUsingEntityIdKey(t: Topic, c1: nat, c2: nat, c3: nat) returns (ghost delivered: seq<Message>)
    requires c1 != c2 && c1 != c3 && c2 != c3 && JoinedGroup(t, c1, c2, c3)
    requires t.partitions == seq(PartitionsCount, _ => [])
    requires t.groups == map[ConsumerGroupId := Group([c1, c2, c3], JoinedAssignment(c1, c2, c3), map[])]
    modifies t
    ensures t.Valid() && t.partitions == KeyedLogs(MessagesCount, PartitionsCount, t.keyHash)
    ensures delivered == t.partitions[0] + t.partitions[1] + t.partitions[2] && |delivered| == MessagesCount
    ensures multiset(Payloads(delivered)) == SentPayloads(MessagesCount)
    ensures ConsumerGroupId in t.groups
    ensures CommittedToEnd(t.groups[ConsumerGroupId], t.partitions)
  {
    SendUsingEntityIdKey(t);
    ghost var logs := t.partitions;
    KeyedLogsHoldSent(MessagesCount, PartitionsCount, t.keyHash);
    KeyedLogsLength(MessagesCount, PartitionsCount, t.keyHash);
    AllPayloadsOfThree(logs);
    ReadyToPollAfterSends(t.groups[ConsumerGroupId], logs, c1, c2, c3);
    var total;
    total, delivered := PollOwnPartitions(t, c1, c2, c3);
    assert total == MessagesCount;
    ThreeCommittedToEnd(t.groups[ConsumerGroupId], t.partitions);
  }

  /** log holds the first count messages the scenario expects on partition p. */
  predicate LogAsExpected(log: seq<Message>, p: nat, count: nat)
  {
    && |log| == count
    && forall j :: 0 <= j < count ==> log[j] == Message(j, Extended(p, ExpectedEntityId(p, j + 1)))
  }

  /** After the keyless sends of entity ids 1..e, each partition holds its share in order. */
  predicate LogsAsExpected(logs: seq<seq<Message>>, e: nat)
  {
    && |logs| == PartitionsCount
    && forall k :: 0 <= k < PartitionsCount ==> LogAsExpected(logs[k], k + 1, SentTo(e, k + 1))
  }

  /** The next expected message, appended at the next offset, keeps a log as expected. */
  lemma AppendAsExpected(log: seq<Message>, p: nat, e: nat)
    requires LogAsExpected(log, p, |log|) && ExpectedEntityId(p, |log| + 1) == e
    ensures LogAsExpected(log + [Message(|log|, Extended(p, e))], p, |log| + 1)
  {
  }

  /** Sending entity e without a key to its expected partition keeps every log as expected. */
  lemma SendKeepsLogsAsExpected(logs: seq<seq<Message>>, e: nat)
    requires e >= 1 && LogsAsExpected(logs, e - 1)
    ensures var q := ExpectedPartition(e);
            LogsAsExpected(logs[q - 1 := logs[q - 1] + [Message(|logs[q - 1]|, Extended(q, e))]], e)
  {
    var q := ExpectedPartition(e);
    var logs' := logs[q - 1 := logs[q - 1] + [Message(|logs[q - 1]|, Extended(q, e))]];
    forall k | 0 <= k < PartitionsCount
      ensures LogAsExpected(logs'[k], k + 1, SentTo(e, k + 1))
    {
      if k == q - 1 {
        NextEntityIdLandsInPlace(e - 1);
        AppendAsExpected(logs[k], q, e);
      }
    }
  }

  /**
   * The keyless sends: entity ids 1..3000, each with the partition the
   * scenario expects it on in its payload; round robin puts each exactly
   * there, so every partition ends with its 1000 messages in order.
   */
  method SendUsingNoneKey(t: Topic)
    requires t.Valid() && t.partitionsCount == PartitionsCount
    requires t.partitions == seq(PartitionsCount, _ => []) && t.cursor == 0
    modifies t
    ensures t.Valid() && t.groups == old(t.groups)
    ensures forall k :: 0 <= k < PartitionsCount ==> LogAsExpected(t.partitions[k], k + 1, MessagesCount)
  {
    var e := 1;
    while e <= MessagesCount * PartitionsCount
      invariant 1 <= e <= MessagesCount * PartitionsCount + 1
      invariant t.Valid() && t.groups == old(t.groups)
      invariant t.cursor == e - 1
      invariant LogsAsExpected(t.partitions, e - 1)
    {
      var partitionId := ExpectedPartition(e);
      SendKeepsLogsAsExpected(t.partitions, e);
      var routed := t.Send(NoKey, Extended(partitionId, e));
      assert routed == partitionId;
      e := e + 1;
    }
    forall k | 0 <= k < PartitionsCount
      ensures LogAsExpected(t.partitions[k], k + 1, MessagesCount)
    {
      FullRoundsAreBalanced(MessagesCount, k + 1);
    }
  }

  /**
   * The i-th single-message poll with auto-commit of a client holding the
   * single partition p, whose log is as expected and committed up to i - 1:
   * one message, at offset i - 1, carrying p and the entity id
   * start(p) + (i - 1) * 3; the commit moves to i and no other partition's
   * commit moves.
   */
  lemma ValidatePollStep(g: Group, client: nat, p: nat, logs: seq<seq<Message>>, i: nat)
    requires GroupValid(g, logs) && LogsValid(logs)
    requires client in g.assignment && g.assignment[client] == [p] && 1 <= p <= |logs|
    requires LogAsExpected(logs[p - 1], p, MessagesCount)
    requires 1 <= i <= MessagesCount && Committed(g, p) == i - 1
    ensures PollReady(g, logs)
    ensures var o := PollNext(g, client, 1, true, logs);
            && GroupValid(o.group, logs)
            && o.result.Ok? && |o.result.value| == 1
            && o.result.value[0] == Message(i - 1, Extended(p, ExpectedEntityId(p, i)))
            && Committed(o.group, p) == i
            && forall q :: q != p ==> Committed(o.group, q) == Committed(g, q)
  {
    PollNextKeepsValid(g, client, 1, true, logs);
    PollPartitionReadsFromCommitted(g, p, 1, true, logs[p - 1]);
  }

  /** Once the client's single partition is read to the end, a poll returns nothing. */
  lemma ValidatePollExhausted(g: Group, client: nat, p: nat, logs: seq<seq<Message>>)
    requires GroupValid(g, logs)
    requires client in g.assignment && g.assignment[client] == [p] && 1 <= p <= |logs|
    requires Committed(g, p) == |logs[p - 1]|
    ensures PollReady(g, logs)
    ensures PollNext(g, client, 1, true, logs) == PollOutcome(Ok([]), g)
  {
    GroupValidIsPollReady(g, logs);
    PollPartitionWhenExhausted(g, p, 1, true, logs[p - 1]);
  }

  /**
   * What one client's check in the keyless part relies on: the group
   * snapshot info has the group's current assignment, the client holds
   * exactly one partition p in it, p's log holds the 1000 expected
   * messages, and nothing of p is committed yet.
   */
  predicate ReadyToValidate(g: Group, logs: seq<seq<Message>>, info: Group, client: nat)
  {
    && info.assignment == g.assignment
    && client in info.assignment && |info.assignment[client]| == 1
    && 1 <= info.assignment[client][0] <= |logs|
    && LogAsExpected(logs[info.assignment[client][0] - 1], info.assignment[client][0], MessagesCount)
    && Committed(g, info.assignment[client][0]) == 0
  }

  /**
   * Right after the keyless sends, with the three clients joined and
   * nothing committed, each client is ready for its check.
   */
  lemma ReadyAfterSends(g: Group, logs: seq<seq<Message>>, c1: nat, c2: nat, c3: nat)
    requires c1 != c2 && c1 != c3 && c2 != c3
    requires g == Group([c1, c2, c3], JoinedAssignment(c1, c2, c3), map[])
    requires |logs| == PartitionsCount
    requires forall k :: 0 <= k < PartitionsCount ==> LogAsExpected(logs[k], k + 1, MessagesCount)
    ensures ReadyToValidate(g, logs, g, c1) && ReadyToValidate(g, logs, g, c2) && ReadyToValidate(g, logs, g, c3)
    ensures g.assignment[c1] == [1] && g.assignment[c2] == [2] && g.assignment[c3] == [3]
  {
    assert LogAsExpected(logs[0], 1, MessagesCount);
    assert LogAsExpected(logs[1], 2, MessagesCount);
    assert LogAsExpected(logs[2], 3, MessagesCount);
  }

  /** A check that moved only partition p's commit leaves a client of another partition ready. */
  lemma StillReady(g: Group, g': Group, logs: seq<seq<Message>>, info: Group, client: nat, p: nat)
    requires ReadyToValidate(g, logs, info, client) && info.assignment[client] != [p]
    requires g'.assignment == g.assignment
    requires forall q :: q != p ==> Committed(g', q) == Committed(g, q)
    ensures ReadyToValidate(g', logs, info, client)
  {
  }

  /**
   * One client's check in the keyless part: its partition p, taken from the
   * group snapshot, yields 1000 single-message polls with offsets 0..999
   * and the entity ids start(p), start(p) + 3, ..., and then an empty poll.
   */
  method ValidateMessagePolling(t: Topic, info: Group, client: nat) returns (polled: seq<Message>, last: Result<seq<Message>>)
    requires t.Valid() && ConsumerGroupId in t.groups
    requires ReadyToValidate(t.groups[ConsumerGroupId], t.partitions, info, client)
    modifies t
    ensures t.Valid() && t.partitions == old(t.partitions) && t.cursor == old(t.cursor)
    ensures ConsumerGroupId in t.groups
    ensures t.groups.Keys == old(t.groups).Keys
    ensures forall id :: id in t.groups && id != ConsumerGroupId ==> t.groups[id] == old(t.groups)[id]
    ensures t.groups[ConsumerGroupId].members == old(t.groups[ConsumerGroupId].members)
    ensures t.groups[ConsumerGroupId].assignment == old(t.groups[ConsumerGroupId].assignment)
    ensures forall q :: q != info.assignment[client][0] ==>
              Committed(t.groups[ConsumerGroupId], q) == Committed(old(t.groups[ConsumerGroupId]), q)
    ensures LogAsExpected(polled, info.assignment[client][0], MessagesCount)
    ensures last == Ok([])
    ensures Committed(t.groups[ConsumerGroupId], info.assignment[client][0]) == MessagesCount
  {
    var partitionId := info.assignment[client][0];
    assert info.assignment[client] == [partitionId];
    var startEntityId := StartEntityId(partitionId);
    ghost var logs := t.partitions;
    ghost var g0 := t.groups[ConsumerGroupId];
    assert LogAsExpected(logs[partitionId - 1], partitionId, MessagesCount);
    polled := [];
    var i := 1;
    while i <= MessagesCount
      invariant 1 <= i <= MessagesCount + 1
      invariant t.Valid() && t.partitions == logs && t.cursor == old(t.cursor)
      invariant ConsumerGroupId in t.groups
      invariant t.groups == old(t.groups)[ConsumerGroupId := t.groups[ConsumerGroupId]]
      invariant t.groups[ConsumerGroupId].members == g0.members && t.groups[ConsumerGroupId].assignment == g0.assignment
      invariant Committed(t.groups[ConsumerGroupId], partitionId) == i - 1
      invariant forall q :: q != partitionId ==> Committed(t.groups[ConsumerGroupId], q) == Committed(g0, q)
      invariant LogAsExpected(polled, partitionId, i - 1)
    {
      ValidatePollStep(t.groups[ConsumerGroupId], client, partitionId, logs, i);
      ghost var before := t.groups;
      var messages := t.Poll(ConsumerGroupId, client, 1, true);
      MapUpdateTwice(old(t.groups), ConsumerGroupId, before[ConsumerGroupId], t.groups[ConsumerGroupId]);
      assert messages.Ok?;
      assert |messages.value| == 1;
      var message := messages.value[0];
      var offset := i - 1;
      assert message.offset == offset;
      var entityId := startEntityId + (i - 1) * PartitionsCount;
      assert message.payload == Extended(partitionId, entityId);
      AppendAsExpected(polled, partitionId, entityId);
      polled := polled + [message];
      i := i + 1;
    }
    ValidatePollExhausted(t.groups[ConsumerGroupId], client, partitionId, logs);
    ghost var before := t.groups;
    last := t.Poll(ConsumerGroupId, client, 1, true);
    MapUpdateTwice(old(t.groups), ConsumerGroupId, before[ConsumerGroupId], t.groups[ConsumerGroupId]);
    assert last.Ok? && last.value == [];
  }

  /**
   * The keyless part: entity ids 1..3000 are sent without a key; then every
   * client holds one partition and reads back exactly its share in order.
   */
  method ExecuteUsingNoneKey(t: Topic, c1: nat, c2: nat, c3: nat)
    requires c1 != c2 && c1 != c3 && c2 != c3 && JoinedGroup(t, c1, c2, c3)
    requires t.partitions == seq(PartitionsCount, _ => []) && t.cursor == 0
    requires t.groups == map[ConsumerGroupId := Group([c1, c2, c3], JoinedAssignment(c1, c2, c3), map[])]
    modifies t
    ensures t.Valid() && ConsumerGroupId in t.groups && |t.partitions| == PartitionsCount
    ensures forall k :: 0 <= k < PartitionsCount ==> LogAsExpected(t.partitions[k], k + 1, MessagesCount)
    ensures CommittedToEnd(t.groups[ConsumerGroupId], t.partitions)
  {
    SendUsingNoneKey(t);
    var info := t.GetConsumerGroup(ConsumerGroupId);
    assert info.Ok?;
    ghost var g0 := info.value;
    ReadyAfterSends(g0, t.partitions, c1, c2, c3);
    JoinedGroupIs(g0, c1, c2, c3);
    var ok := EachMemberHoldsOnePartition(info.value);
    assert ok;
    var polled, last := ValidateMessagePolling(t, info.value, c1);
    ghost var g1 := t.groups[ConsumerGroupId];
    assert Committed(g1, 1) == MessagesCount;
    StillReady(g0, g1, t.partitions, g0, c2, 1);
    StillReady(g0, g1, t.partitions, g0, c3, 1);
    polled, last := ValidateMessagePolling(t, info.value, c2);
    ghost var g2 := t.groups[ConsumerGroupId];
    assert Committed(g2, 1) == MessagesCount && Committed(g2, 2) == MessagesCount;
    StillReady(g1, g2, t.partitions, g0, c3, 2);
    polled, last := ValidateMessagePolling(t, info.value, c3);
    ghost var g3 := t.groups[ConsumerGroupId];
    assert Committed(g3, 1) == MessagesCount && Committed(g3, 2) == MessagesCount && Committed(g3, 3) == MessagesCount;
    ThreeCommittedToEnd(g3, t.partitions);
  }

  /** Deletes the scenario's stream from a server holding only its one topic. */
  method DeleteScenarioStream(broker: Broker, t: Topic)
    requires broker.streams == {StreamId} && broker.topics == map[(StreamId, TopicId) := t] && t.Valid()
    modifies broker
    ensures broker.Valid() && broker.streams == {} && broker.topics == map[]
  {
    OneTopicValid(broker, (StreamId, TopicId), t);
    DeleteOnlyStream(broker.topics, StreamId);
    var r := broker.DeleteStream(StreamId);
    assert r.Ok?;
  }

  /**
   * The first half of the scenario on a server with no streams: set up,
   * keyed part, delete the stream. The server is left with no streams and
   * no topics, and the polling delivered every payload sent exactly once.
   */
  method RunUsingEntityIdKey(broker: Broker, keyHash: nat -> nat, c1: nat, c2: nat, c3: nat) returns (ghost delivered: seq<Message>)
    requires c1 != c2 && c1 != c3 && c2 != c3
    requires broker.Valid() && broker.streams == {} && broker.topics == map[]
    modifies broker
    ensures broker.Valid() && broker.streams == {} && broker.topics == map[]
    ensures |delivered| == MessagesCount && multiset(Payloads(delivered)) == SentPayloads(MessagesCount)
  {
    var t := InitSystem(broker, keyHash, c1, c2, c3);
    assert broker.streams == {StreamId} && broker.topics == map[(StreamId, TopicId) := t];
    assert broker as object != t as object;
    delivered := ExecuteUsingEntityIdKey(t, c1, c2, c3);
    DeleteScenarioStream(broker, t);
  }

  /**
   * The whole scenario on a fresh server: set up, keyed part, delete the
   * stream, set up again with the same ids (which succeeds, and starts
   * from empty logs and no commits), keyless part. The server is left with
   * the scenario's stream and topic alone, each partition holding its 1000
   * expected messages and committed to its end.
   */
  method Run(keyHash: nat -> nat, c1: nat, c2: nat, c3: nat) returns (broker: Broker, t: Topic)
    requires c1 != c2 && c1 != c3 && c2 != c3
    ensures broker.Valid() && broker.streams == {StreamId} && broker.topics == map[(StreamId, TopicId) := t]
    ensures |t.partitions| == PartitionsCount
    ensures forall k :: 0 <= k < PartitionsCount ==> LogAsExpected(t.partitions[k], k + 1, MessagesCount)
    ensures ConsumerGroupId in t.groups && CommittedToEnd(t.groups[ConsumerGroupId], t.partitions)
  {
    broker := new Broker();
    ghost var delivered := RunUsingEntityIdKey(broker, keyHash, c1, c2, c3);
    t := InitSystem(broker, keyHash, c1, c2, c3);
    assert broker.topics == map[(StreamId, TopicId) := t];
    assert broker as object != t as object;
    ExecuteUsingNoneKey(t, c1, c2, c3);
    OneTopicValid(broker, (StreamId, TopicId), t);
  }
}
