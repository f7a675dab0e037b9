/**
 * The values behind a topic on the server side: messages appended to
 * partition logs, the message key that routes a send, and a consumer
 * group's members, assignment and committed offsets. PollNext is the
 * specification of one consumer-group poll with the "next" starting point:
 * read up to count messages from the committed offset of the partition the
 * assignment gives, and commit past them when auto-commit is on.
 */
module ConsumerGroups {
  import opened GroupAssignment

  /** An entity id key routes by a hash of the id; no key routes round robin. */
  datatype Key = NoKey | EntityIdKey(entityId: nat)

  /**
   * The scenario's payloads: "message-<entity>" for keyed sends and
   * "message-<partition>-<entity>" for keyless ones, kept as the numbers
   * they are formatted from.
   */
  datatype Payload = Plain(entityId: nat) | Extended(partitionId: nat, entityId: nat)

  datatype Message = Message(offset: nat, payload: Payload)

  datatype Error = NotFound | AlreadyExists | InvalidState

  datatype Result<T> = Ok(value: T) | Err(error: Error)

  /** A consumer group: its ordered members, their partitions and its committed offsets. */
  datatype Group = Group(members: seq<nat>, assignment: map<nat, seq<nat>>, offsets: map<nat, nat>)

  /** Offsets in every partition log start at 0 and have no gaps. */
  predicate LogsValid(logs: seq<seq<Message>>)
  {
    forall k, j :: 0 <= k < |logs| && 0 <= j < |logs[k]| ==> logs[k][j].offset == j
  }

  /** No committed offset lies outside the partitions or past the end of its log. */
  predicate OffsetsValid(g: Group, logs: seq<seq<Message>>)
  {
    forall p :: p in g.offsets ==> 1 <= p <= |logs| && g.offsets[p] <= |logs[p - 1]|
  }

  /** Every member holds an ascending list of partitions among 1..n. */
  predicate HoldingsValid(g: Group, n: nat)
  {
    forall x :: x in g.assignment ==> InRange(g.assignment[x], n) && Increasing(g.assignment[x])
  }

  /** What a poll needs of the group: well-formed holdings and offsets. */
  predicate PollReady(g: Group, logs: seq<seq<Message>>)
  {
    |logs| > 0 && HoldingsValid(g, |logs|) && OffsetsValid(g, logs)
  }

  /** The assignment is the one for the current members, and no offset runs past its log. */
  predicate GroupValid(g: Group, logs: seq<seq<Message>>)
  {
    && |logs| > 0
    && Distinct(g.members)
    && g.assignment == Assignment(g.members, |logs|)
    && OffsetsValid(g, logs)
  }

  lemma GroupValidIsPollReady(g: Group, logs: seq<seq<Message>>)
    requires GroupValid(g, logs)
    ensures PollReady(g, logs)
  {
    forall x | x in g.assignment
      ensures InRange(g.assignment[x], |logs|) && Increasing(g.assignment[x])
    {
      AssignmentWithinRange(g.members, |logs|, x);
    }
  }

  /**
   * Appending messages keeps a group valid: the partition count is fixed
   * and committed offsets can only lag their logs further.
   */
  lemma GroupValidAfterAppend(g: Group, logs: seq<seq<Message>>, logs': seq<seq<Message>>)
    requires GroupValid(g, logs) && |logs'| == |logs|
    requires forall k :: 0 <= k < |logs| ==> |logs[k]| <= |logs'[k]|
    ensures GroupValid(g, logs')
  {
  }

  /** A new group has no members, no assignment and no commits. */
  function EmptyGroup(): Group
  {
    Group([], map[], map[])
  }

  lemma EmptyGroupValid(logs: seq<seq<Message>>)
    requires |logs| > 0
    ensures GroupValid(EmptyGroup(), logs)
  {
    assert Assignment([], |logs|) == map[];
  }

  /** The number of messages stored across all partition logs. */
  function TotalLength(logs: seq<seq<Message>>): nat
  {
    if logs == [] then 0 else |logs[0]| + TotalLength(logs[1..])
  }

  /** Appending one message to one log adds exactly one to the total. */
  lemma {:induction false} TotalLengthAppend(logs: seq<seq<Message>>, k: nat, m: Message)
    requires k < |logs|
    ensures TotalLength(logs[k := logs[k] + [m]]) == TotalLength(logs) + 1
  {
    var logs' := logs[k := logs[k] + [m]];
    if k > 0 {
      assert logs'[1..] == logs[1..][k - 1 := logs[k] + [m]];
      TotalLengthAppend(logs[1..], k - 1, m);
    } else {
      assert logs'[1..] == logs[1..];
    }
  }

  /** The group's committed offset for partition p; 0 before its first commit. */
  function Committed(g: Group, p: nat): nat
  {
    if p in g.offsets then g.offsets[p] else 0
  }

  predicate InRange(ps: seq<nat>, n: nat)
  {
    forall k :: 0 <= k < |ps| ==> 1 <= ps[k] <= n
  }

  /** The partition a send goes to among 1..n, given the topic's round-robin cursor. */
  function Route(key: Key, cursor: nat, n: nat, keyHash: nat -> nat): (p: nat)
    requires n > 0
    ensures 1 <= p <= n
  {
    match key
    case NoKey => cursor % n + 1
    case EntityIdKey(id) => keyHash(id) % n + 1
  }

  /** Two numbers less than n apart leave different remainders modulo n. */
  lemma ModDistinct(k: nat, k': nat, n: nat)
    requires k < k' < k + n
    ensures k % n != k' % n
  {
    if k % n == k' % n {
      var q, q', r := k / n, k' / n, k % n;
      assert k == q * n + r && k' == q' * n + r;
      if q' > q {
        assert k' - k == (q' - q) * n;
        MulAtLeast(q' - q, n);
      } else if q > q' {
        assert k - k' == (q - q') * n;
        MulAtLeast(q - q', n);
      }
    }
  }

  /**
   * Keyless messages cycle through the partitions: among n successive sends
   * every partition is hit, and no two of them hit the same one.
   */
  lemma {:induction false} RoundRobinCycle(cursor: nat, n: nat, keyHash: nat -> nat, p: nat)
    requires n > 0 && 1 <= p <= n
    ensures exists k :: cursor <= k < cursor + n && Route(NoKey, k, n, keyHash) == p
    ensures forall k, k' :: cursor <= k < k' < cursor + n ==> Route(NoKey, k, n, keyHash) != Route(NoKey, k', n, keyHash)
  {
    forall k, k' | cursor <= k < k' < cursor + n
      ensures Route(NoKey, k, n, keyHash) != Route(NoKey, k', n, keyHash)
    {
      ModDistinct(k, k', n);
    }
    var r := cursor % n;
    var k := if p - 1 >= r then cursor + (p - 1 - r) else cursor + (n - r) + (p - 1);
    DivModUnique(cursor, n, cursor / n, r);
    if p - 1 >= r {
      DivModUnique(k, n, cursor / n, p - 1);
    } else {
      DivModUnique(k, n, cursor / n + 1, p - 1);
    }
    assert Route(NoKey, k, n, keyHash) == p;
  }

  /** Unread messages of the group across the partitions ps. */
  function Unread(g: Group, ps: seq<nat>, logs: seq<seq<Message>>): nat
    requires InRange(ps, |logs|)
  {
    if ps == [] then 0
    else
      var p := ps[0];
      (if Committed(g, p) < |logs[p - 1]| then |logs[p - 1]| - Committed(g, p) else 0)
      + Unread(g, ps[1..], logs)
  }

  /**
   * The partition a member's poll reads: the first of its partitions with
   * an unread message, or its last partition when all are read.
   */
  function PollTarget(g: Group, ps: seq<nat>, logs: seq<seq<Message>>): (p: nat)
    requires ps != [] && InRange(ps, |logs|)
    ensures p in ps
  {
    if |ps| == 1 || Committed(g, ps[0]) < |logs[ps[0] - 1]| then ps[0]
    else PollTarget(g, ps[1..], logs)
  }

  lemma {:induction false} PollTargetHasUnread(g: Group, ps: seq<nat>, logs: seq<seq<Message>>)
    requires ps != [] && InRange(ps, |logs|)
    requires Unread(g, ps, logs) > 0
    ensures Committed(g, PollTarget(g, ps, logs)) < |logs[PollTarget(g, ps, logs) - 1]|
  {
    if !(Committed(g, ps[0]) < |logs[ps[0] - 1]|) && |ps| > 1 {
      PollTargetHasUnread(g, ps[1..], logs);
    }
  }

  /** The outcome of one poll: what the caller receives and the group afterwards. */
  datatype PollOutcome = PollOutcome(result: Result<seq<Message>>, group: Group)

  function Min(a: nat, b: nat): nat
  {
    if a <= b then a else b
  }

  /**
   * Reading partition p of the group with the "next" starting point: up to
   * count messages of its log from the committed offset, committed past
   * when autoCommit is set and something was read.
   */
  function PollPartition(g: Group, p: nat, count: nat, autoCommit: bool, log: seq<Message>): (o: PollOutcome)
    requires Committed(g, p) <= |log|
    ensures o.result.Ok?
    ensures o.group.members == g.members && o.group.assignment == g.assignment
  {
    var offset := Committed(g, p);
    var messages := log[offset..offset + Min(count, |log| - offset)];
    if autoCommit && messages != [] then PollOutcome(Ok(messages), g.(offsets := g.offsets[p := offset + |messages|]))
    else PollOutcome(Ok(messages), g)
  }

  /**
   * A partition poll returns the log starting exactly at the committed
   * offset, in offset order with no gap, at most count messages and fewer
   * only at the end of the log; with auto-commit the committed offset moves
   * to just past the last message returned and no other partition's offset
   * moves; without it nothing moves.
   */
  lemma PollPartitionReadsFromCommitted(g: Group, p: nat, count: nat, autoCommit: bool, log: seq<Message>)
    requires Committed(g, p) <= |log|
    requires forall j :: 0 <= j < |log| ==> log[j].offset == j
    ensures var o := PollPartition(g, p, count, autoCommit, log);
            && |o.result.value| == Min(count, |log| - Committed(g, p))
            && (forall j :: 0 <= j < |o.result.value| ==>
                  Committed(g, p) + j < |log| && o.result.value[j] == log[Committed(g, p) + j]
                  && o.result.value[j].offset == Committed(g, p) + j)
            && Committed(o.group, p) == (if autoCommit then Committed(g, p) + |o.result.value| else Committed(g, p))
            && (forall q :: q != p ==> Committed(o.group, q) == Committed(g, q))
  {
  }

  /** Polling an exhausted partition returns nothing and changes nothing. */
  lemma PollPartitionWhenExhausted(g: Group, p: nat, count: nat, autoCommit: bool, log: seq<Message>)
    requires Committed(g, p) == |log|
    ensures PollPartition(g, p, count, autoCommit, log) == PollOutcome(Ok([]), g)
  {
  }

  /** A partition poll commits no offset past the end of its log. */
  lemma PollPartitionKeepsOffsets(g: Group, p: nat, count: nat, autoCommit: bool, logs: seq<seq<Message>>)
    requires 1 <= p <= |logs| && OffsetsValid(g, logs) && Committed(g, p) <= |logs[p - 1]|
    ensures OffsetsValid(PollPartition(g, p, count, autoCommit, logs[p - 1]).group, logs)
  {
  }

  /**
   * One poll with the "next" starting point by a group member: an unknown
   * member is NotFound, a member without partitions is InvalidState;
   * otherwise the partition poll of the member's first partition with
   * something unread.
   */
  function PollNext(g: Group, member: nat, count: nat, autoCommit: bool, logs: seq<seq<Message>>): (o: PollOutcome)
    requires PollReady(g, logs)
    ensures o.group.members == g.members && o.group.assignment == g.assignment
  {
    if member !in g.assignment then PollOutcome(Err(NotFound), g)
    else if g.assignment[member] == [] then PollOutcome(Err(InvalidState), g)
    else
      var p := PollTarget(g, g.assignment[member], logs);
      PollPartition(g, p, count, autoCommit, logs[p - 1])
  }

  /** A poll keeps the offsets valid: no offset is committed past its log. */
  lemma PollNextKeepsValid(g: Group, member: nat, count: nat, autoCommit: bool, logs: seq<seq<Message>>)
    requires GroupValid(g, logs)
    ensures PollReady(g, logs)
    ensures GroupValid(PollNext(g, member, count, autoCommit, logs).group, logs)
  {
    GroupValidIsPollReady(g, logs);
    if member in g.assignment && g.assignment[member] != [] {
      var p := PollTarget(g, g.assignment[member], logs);
      PollPartitionKeepsOffsets(g, p, count, autoCommit, logs);
    }
  }

  /**
   * Exhaustion: once the member's partitions hold nothing unread, a poll
   * succeeds with no messages and leaves the group as it was, so further
   * polls do the same.
   */
  lemma PollNextWhenExhausted(g: Group, member: nat, count: nat, autoCommit: bool, logs: seq<seq<Message>>)
    requires PollReady(g, logs)
    requires member in g.assignment && g.assignment[member] != []
    requires Unread(g, g.assignment[member], logs) == 0
    ensures PollNext(g, member, count, autoCommit, logs) == PollOutcome(Ok([]), g)
  {
    var ps := g.assignment[member];
    var p := PollTarget(g, ps, logs);
    UnreadZero(g, ps, logs, p);
    PollPartitionWhenExhausted(g, p, count, autoCommit, logs[p - 1]);
  }

  lemma {:induction false} UnreadZero(g: Group, ps: seq<nat>, logs: seq<seq<Message>>, p: nat)
    requires InRange(ps, |logs|) && Unread(g, ps, logs) == 0 && p in ps
    ensures Committed(g, p) >= |logs[p - 1]|
  {
    if ps[0] != p {
      UnreadZero(g, ps[1..], logs, p);
    }
  }

  /**
   * Committing k more messages on partition p lowers the unread count of
   * any partition list holding p once by k, and leaves a list without p as
   * it was.
   */
  lemma {:induction false} UnreadAfterCommit(g: Group, g': Group, ps: seq<nat>, logs: seq<seq<Message>>, p: nat, k: nat)
    requires InRange(ps, |logs|) && Increasing(ps) && 1 <= p <= |logs|
    requires Committed(g, p) + k <= |logs[p - 1]|
    requires Committed(g', p) == Committed(g, p) + k
    requires forall q :: q != p ==> Committed(g', q) == Committed(g, q)
    ensures p in ps ==> Unread(g', ps, logs) + k == Unread(g, ps, logs)
    ensures p !in ps ==> Unread(g', ps, logs) == Unread(g, ps, logs)
  {
    if ps != [] {
      assert Increasing(ps[1..]);
      if ps[0] == p {
        assert p !in ps[1..];
      }
      UnreadAfterCommit(g, g', ps[1..], logs, p, k);
    }
  }

  /**
   * Polling one message at a time with auto-commit: while the member has
   * something unread, each poll returns exactly one message and lowers its
   * unread count by one; otherwise it returns none.
   */
  lemma PollOneAtATime(g: Group, member: nat, logs: seq<seq<Message>>)
    requires PollReady(g, logs) && LogsValid(logs)
    requires member in g.assignment && g.assignment[member] != []
    ensures var o := PollNext(g, member, 1, true, logs);
            && o.result.Ok?
            && |o.result.value| == (if Unread(g, g.assignment[member], logs) > 0 then 1 else 0)
            && Unread(o.group, g.assignment[member], logs) + |o.result.value| == Unread(g, g.assignment[member], logs)
  {
    var ps := g.assignment[member];
    var p := PollTarget(g, ps, logs);
    if Unread(g, ps, logs) > 0 {
      PollTargetHasUnread(g, ps, logs);
      var o := PollPartition(g, p, 1, true, logs[p - 1]);
      PollPartitionReadsFromCommitted(g, p, 1, true, logs[p - 1]);
      UnreadAfterCommit(g, o.group, ps, logs, p, 1);
    } else {
      PollNextWhenExhausted(g, member, 1, true, logs);
    }
  }

  /** The unread part of partition p's log: from its committed offset to the end. */
  function UnreadSection(g: Group, p: nat, logs: seq<seq<Message>>): seq<Message>
    requires 1 <= p <= |logs|
  {
    if Committed(g, p) < |logs[p - 1]| then logs[p - 1][Committed(g, p)..] else []
  }

  /**
   * The unread messages of the group across the partitions ps: partition by
   * partition in the order of ps, each from its committed offset to the end
   * of its log.
   */
  function UnreadMessages(g: Group, ps: seq<nat>, logs: seq<seq<Message>>): seq<Message>
    requires InRange(ps, |logs|)
  {
    if ps == [] then [] else UnreadSection(g, ps[0], logs) + UnreadMessages(g, ps[1..], logs)
  }

  /** There are as many unread messages as the unread count says. */
  lemma {:induction false} UnreadMessagesLength(g: Group, ps: seq<nat>, logs: seq<seq<Message>>)
    requires InRange(ps, |logs|)
    ensures |UnreadMessages(g, ps, logs)| == Unread(g, ps, logs)
  {
    if ps != [] {
      UnreadMessagesLength(g, ps[1..], logs);
    }
  }

  /** The unread messages of ps depend only on the commits of the partitions in ps. */
  lemma {:induction false} UnreadMessagesFrame(g: Group, g': Group, ps: seq<nat>, logs: seq<seq<Message>>)
    requires InRange(ps, |logs|)
    requires forall q :: q in ps ==> Committed(g', q) == Committed(g, q)
    ensures UnreadMessages(g', ps, logs) == UnreadMessages(g, ps, logs)
  {
    if ps != [] {
      assert forall q :: q in ps[1..] ==> q in ps;
      UnreadMessagesFrame(g, g', ps[1..], logs);
    }
  }

  /** Committing one message of partition p takes it off the front of p's unread section. */
  lemma SectionAfterCommit(g: Group, p: nat, logs: seq<seq<Message>>, c: nat)
    requires 1 <= p <= |logs| && c == Committed(g, p) < |logs[p - 1]|
    ensures UnreadSection(g, p, logs) == [logs[p - 1][c]] + UnreadSection(g.(offsets := g.offsets[p := c + 1]), p, logs)
  {
  }

  lemma PrependAssoc<T>(x: seq<T>, s: seq<T>, s': seq<T>, r: seq<T>)
    requires s == x + s'
    ensures s + r == x + (s' + r)
  {
  }

  /** A fully read first partition contributes nothing to the unread messages. */
  lemma ReadHead(g: Group, ps: seq<nat>, logs: seq<seq<Message>>)
    requires InRange(ps, |logs|) && ps != [] && Committed(g, ps[0]) >= |logs[ps[0] - 1]|
    ensures UnreadMessages(g, ps, logs) == UnreadMessages(g, ps[1..], logs)
  {
    assert UnreadSection(g, ps[0], logs) == [];
  }

  /** Committing one message of the first partition of ps takes that message off the front. */
  lemma FirstUnreadAtHead(g: Group, ps: seq<nat>, logs: seq<seq<Message>>, c: nat)
    requires InRange(ps, |logs|) && ps != [] && ps[0] !in ps[1..]
    requires c == Committed(g, ps[0]) < |logs[ps[0] - 1]|
    ensures UnreadMessages(g, ps, logs)
            == [logs[ps[0] - 1][c]] + UnreadMessages(g.(offsets := g.offsets[ps[0] := c + 1]), ps, logs)
  {
    var p, tail := ps[0], ps[1..];
    var g' := g.(offsets := g.offsets[p := c + 1]);
    UnreadMessagesFrame(g, g', tail, logs);
    SectionAfterCommit(g, p, logs, c);
    var x := [logs[p - 1][c]];
    PrependAssoc(x, UnreadSection(g, p, logs), UnreadSection(g', p, logs), UnreadMessages(g, tail, logs));
  }

  /**
   * Committing past the first unread message of partitions ps, which lies in
   * partition p at offset c, takes exactly that message off the front.
   */
  lemma {:induction false} FirstUnreadAt(g: Group, ps: seq<nat>, logs: seq<seq<Message>>, p: nat, c: nat)
    requires InRange(ps, |logs|) && Increasing(ps) && p in ps && 1 <= p <= |logs|
    requires c == Committed(g, p) < |logs[p - 1]|
    requires forall k :: 0 <= k < |ps| && ps[k] < p ==> Committed(g, ps[k]) >= |logs[ps[k] - 1]|
    ensures UnreadMessages(g, ps, logs) == [logs[p - 1][c]] + UnreadMessages(g.(offsets := g.offsets[p := c + 1]), ps, logs)
  {
    var tail := ps[1..];
    if ps[0] == p {
      assert p !in tail;
      FirstUnreadAtHead(g, ps, logs, c);
    } else {
      var g' := g.(offsets := g.offsets[p := c + 1]);
      assert ps[0] < p && p in tail && InRange(tail, |logs|) && Increasing(tail) by {
        assert forall k :: 0 <= k < |tail| ==> tail[k] == ps[k + 1];
      }
      assert forall k :: 0 <= k < |tail| && tail[k] < p ==> Committed(g, tail[k]) >= |logs[tail[k] - 1]| by {
        assert forall k :: 0 <= k < |tail| ==> tail[k] == ps[k + 1];
      }
      ReadHead(g, ps, logs);
      ReadHead(g', ps, logs);
      FirstUnreadAt(g, tail, logs, p, c);
    }
  }

  /** The partition a poll targets holds an unread message, and every earlier one is fully read. */
  lemma {:induction false} PollTargetIsFirstUnread(g: Group, ps: seq<nat>, logs: seq<seq<Message>>)
    requires InRange(ps, |logs|) && Increasing(ps) && Unread(g, ps, logs) > 0
    ensures ps != [] && Committed(g, PollTarget(g, ps, logs)) < |logs[PollTarget(g, ps, logs) - 1]|
    ensures forall k :: 0 <= k < |ps| && ps[k] < PollTarget(g, ps, logs) ==> Committed(g, ps[k]) >= |logs[ps[k] - 1]|
  {
    PollTargetHasUnread(g, ps, logs);
    var p0, tail := ps[0], ps[1..];
    if Committed(g, p0) >= |logs[p0 - 1]| {
      assert forall k :: 0 <= k < |tail| ==> tail[k] == ps[k + 1];
      assert Increasing(tail);
      PollTargetIsFirstUnread(g, tail, logs);
    }
  }

  /**
   * A single-message poll with auto-commit on partitions ps with something
   * unread returns the first of their unread messages, and what remains
   * unread is the rest, in the same order.
   */
  lemma PollTakesFirstUnread(g: Group, ps: seq<nat>, logs: seq<seq<Message>>)
    requires InRange(ps, |logs|) && Increasing(ps) && Unread(g, ps, logs) > 0
    ensures ps != [] && Committed(g, PollTarget(g, ps, logs)) < |logs[PollTarget(g, ps, logs) - 1]|
    ensures var p := PollTarget(g, ps, logs);
            var o := PollPartition(g, p, 1, true, logs[p - 1]);
            UnreadMessages(g, ps, logs) == o.result.value + UnreadMessages(o.group, ps, logs)
  {
    PollTargetIsFirstUnread(g, ps, logs);
    var p := PollTarget(g, ps, logs);
    var c, log := Committed(g, p), logs[p - 1];
    FirstUnreadAt(g, ps, logs, p, c);
    PollOneUnread(g, p, log);
  }

  /** A single-message auto-commit poll of a partition with unread messages reads the next one and commits past it. */
  lemma PollOneUnread(g: Group, p: nat, log: seq<Message>)
    requires Committed(g, p) < |log|
    ensures PollPartition(g, p, 1, true, log)
            == PollOutcome(Ok([log[Committed(g, p)]]), g.(offsets := g.offsets[p := Committed(g, p) + 1]))
  {
    var c := Committed(g, p);
    assert log[c..c + Min(1, |log| - c)] == [log[c]];
  }

  /**
   * A member's single-message poll with auto-commit takes the first of its
   * unread messages (none when all are read), leaves the rest unread in
   * the same order, and moves no commit outside the member's partitions.
   */
  lemma PollNextTakesFirstUnread(g: Group, member: nat, logs: seq<seq<Message>>)
    requires PollReady(g, logs) && member in g.assignment && g.assignment[member] != []
    ensures var ps, o := g.assignment[member], PollNext(g, member, 1, true, logs);
            && o.result.Ok?
            && UnreadMessages(g, ps, logs) == o.result.value + UnreadMessages(o.group, ps, logs)
            && forall q :: q !in ps ==> Committed(o.group, q) == Committed(g, q)
  {
    var ps := g.assignment[member];
    if Unread(g, ps, logs) > 0 {
      PollNextWithUnread(g, member, logs);
    } else {
      PollNextWhenExhausted(g, member, 1, true, logs);
    }
  }

  lemma PollNextWithUnread(g: Group, member: nat, logs: seq<seq<Message>>)
    requires PollReady(g, logs) && member in g.assignment && g.assignment[member] != []
    requires Unread(g, g.assignment[member], logs) > 0
    ensures var ps, o := g.assignment[member], PollNext(g, member, 1, true, logs);
            && o.result.Ok?
            && UnreadMessages(g, ps, logs) == o.result.value + UnreadMessages(o.group, ps, logs)
            && forall q :: q !in ps ==> Committed(o.group, q) == Committed(g, q)
  {
    var ps := g.assignment[member];
    PollTakesFirstUnread(g, ps, logs);
    var p := PollTarget(g, ps, logs);
    PollOneUnread(g, p, logs[p - 1]);
  }

  /** A poll by one member leaves every other member's unread count as it was. */
  lemma PollLeavesOthersUnread(g: Group, member: nat, other: nat, count: nat, autoCommit: bool, logs: seq<seq<Message>>)
    requires GroupValid(g, logs) && LogsValid(logs)
    requires member in g.assignment && other in g.assignment && member != other
    ensures PollReady(g, logs)
    ensures Unread(PollNext(g, member, count, autoCommit, logs).group, g.assignment[other], logs)
            == Unread(g, g.assignment[other], logs)
  {
    GroupValidIsPollReady(g, logs);
    var ps := g.assignment[member];
    if ps != [] {
      var p := PollTarget(g, ps, logs);
      var o := PollPartition(g, p, count, autoCommit, logs[p - 1]);
      PollPartitionReadsFromCommitted(g, p, count, autoCommit, logs[p - 1]);
      if p in g.assignment[other] {
        AssignmentDisjoint(g.members, |logs|, member, other, p);
      }
      UnreadAfterCommit(g, o.group, g.assignment[other], logs, p, Committed(o.group, p) - Committed(g, p));
    }
  }
}
