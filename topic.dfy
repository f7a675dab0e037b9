/**
 * A topic on the server: its partition logs, the round-robin cursor for
 * keyless sends and its consumer groups. Send appends to the partition the
 * key routes to; CreateGroup and Join maintain a group and its assignment;
 * Poll serves a member's poll with the "next" starting point.
 */
module Topics {
  import opened GroupAssignment
  import opened ConsumerGroups

  predicate AllGroupsValid(groups: map<nat, Group>, logs: seq<seq<Message>>)
  {
    forall id :: id in groups ==> GroupValid(groups[id], logs)
  }

  /** Replacing one valid group keeps every group valid. */
  lemma GroupsValidAfterUpdate(groups: map<nat, Group>, id: nat, g: Group, logs: seq<seq<Message>>)
    requires AllGroupsValid(groups, logs) && GroupValid(g, logs)
    ensures AllGroupsValid(groups[id := g], logs)
  {
  }

  lemma MapUpdateSame<K, V>(m: map<K, V>, k: K)
    requires k in m
    ensures m[k := m[k]] == m
  {
  }

  lemma MapUpdateTwice<K, V>(m: map<K, V>, k: K, a: V, b: V)
    ensures m[k := a][k := b] == m[k := b]
  {
  }

  class Topic {
    const partitionsCount: nat
    /** The routing hash for entity id keys, which the model leaves open. */
    const keyHash: nat -> nat
    /** partitions[p - 1] is the log of partition p. */
    var partitions: seq<seq<Message>>
    var cursor: nat
    var groups: map<nat, Group>

    predicate Valid()
      reads this
    {
      && partitionsCount > 0
      && |partitions| == partitionsCount
      && LogsValid(partitions)
      && AllGroupsValid(groups, partitions)
    }

    constructor (partitionsCount: nat, keyHash: nat -> nat)
      requires partitionsCount > 0
      ensures Valid()
      ensures this.partitionsCount == partitionsCount && this.keyHash == keyHash
      ensures partitions == seq(partitionsCount, _ => []) && cursor == 0 && groups == map[]
    {
      this.partitionsCount := partitionsCount;
      this.keyHash := keyHash;
      partitions := seq(partitionsCount, _ => []);
      cursor := 0;
      groups := map[];
    }

    /**
     * Appends payload to the partition the key routes to, at the next
     * offset of that log; a keyless send advances the round-robin cursor.
     */
    method Send(key: Key, payload: Payload) returns (partitionId: nat)
      requires Valid()
      modifies this
      ensures Valid()
      ensures partitionId == Route(key, old(cursor), partitionsCount, keyHash)
      ensures partitions == old(partitions)[partitionId - 1 := old(partitions[partitionId - 1]) + [Message(|old(partitions[partitionId - 1])|, payload)]]
      ensures cursor == if key.NoKey? then old(cursor) + 1 else old(cursor)
      ensures groups == old(groups)
    {
      partitionId := Route(key, cursor, partitionsCount, keyHash);
      var log := partitions[partitionId - 1];
      ghost var before := partitions;
      partitions := partitions[partitionId - 1 := log + [Message(|log|, payload)]];
      if key.NoKey? {
        cursor := cursor + 1;
      }
      forall id | id in groups
        ensures GroupValid(groups[id], partitions)
      {
        GroupValidAfterAppend(groups[id], before, partitions);
      }
    }

    /** Creates an empty consumer group; an id already in use is AlreadyExists. */
    method CreateGroup(groupId: nat) returns (r: Result<()>)
      requires Valid()
      modifies this
      ensures Valid()
      ensures partitions == old(partitions) && cursor == old(cursor)
      ensures groupId in old(groups) ==> r == Err(AlreadyExists) && groups == old(groups)
      ensures groupId !in old(groups) ==> r == Ok(()) && groups == old(groups)[groupId := EmptyGroup()]
    {
      if groupId in groups {
        return Err(AlreadyExists);
      }
      EmptyGroupValid(partitions);
      groups := groups[groupId := EmptyGroup()];
      return Ok(());
    }

    /**
     * Adds member to the group and recomputes the group's assignment; an
     * unknown group is NotFound, and a member that already belongs leaves
     * the group as it was.
     */
    method Join(groupId: nat, member: nat) returns (r: Result<()>)
      requires Valid()
      modifies this
      ensures Valid()
      ensures partitions == old(partitions) && cursor == old(cursor) && groups.Keys == old(groups.Keys)
      ensures groupId !in old(groups) ==> r == Err(NotFound) && groups == old(groups)
      ensures groupId in old(groups) ==>
                && r == Ok(())
                && groups == old(groups)[groupId := groups[groupId]]
                && groups[groupId].offsets == old(groups[groupId].offsets)
                && groups[groupId].assignment == Assignment(groups[groupId].members, partitionsCount)
                && groups[groupId].members ==
                     if member in old(groups[groupId].members) then old(groups[groupId].members)
                     else old(groups[groupId].members) + [member]
    {
      if groupId !in groups {
        return Err(NotFound);
      }
      var g := groups[groupId];
      if member in g.members {
        return Ok(());
      }
      var members := g.members + [member];
      assert Distinct(members);
      groups := groups[groupId := Group(members, Assignment(members, partitionsCount), g.offsets)];
      return Ok(());
    }

    /** The group's current snapshot, as a group query returns it. */
    function GetConsumerGroup(groupId: nat): (r: Result<Group>)
      reads this
      ensures r.Ok? <==> groupId in groups
      ensures r.Ok? ==> r.value == groups[groupId]
      ensures r.Err? ==> r.error == NotFound
    {
      if groupId in groups then Ok(groups[groupId]) else Err(NotFound)
    }

    /**
     * A member's poll with the "next" starting point: an unknown group is
     * NotFound; otherwise the outcome is PollNext on the group's snapshot,
     * and the group afterwards is the one PollNext gives.
     */
    method Poll(groupId: nat, member: nat, count: nat, autoCommit: bool) returns (r: Result<seq<Message>>)
      requires Valid()
      modifies this
      ensures Valid()
      ensures partitions == old(partitions) && cursor == old(cursor) && groups.Keys == old(groups.Keys)
      ensures groupId !in old(groups) ==> r == Err(NotFound) && groups == old(groups)
      ensures groupId in old(groups) ==>
                && PollReady(old(groups[groupId]), partitions)
                && var o := PollNext(old(groups[groupId]), member, count, autoCommit, partitions);
                   r == o.result && groups == old(groups)[groupId := o.group]
    {
      if groupId !in groups {
        return Err(NotFound);
      }
      var g := groups[groupId];
      PollNextKeepsValid(g, member, count, autoCommit, partitions);
      if member !in g.assignment {
        return Err(NotFound);
      }
      var ps := g.assignment[member];
      if ps == [] {
        return Err(InvalidState);
      }
      var p := PollTarget(g, ps, partitions);
      var messages := ReadAndCommit(groupId, p, count, autoCommit);
      return Ok(messages);
    }

    /**
     * The read and the commit of one poll on partition p, done together:
     * the messages from the group's committed offset, and the offset moved
     * past them when autoCommit is set.
     */
    method ReadAndCommit(groupId: nat, p: nat, count: nat, autoCommit: bool) returns (messages: seq<Message>)
      requires Valid() && groupId in groups && 1 <= p <= partitionsCount
      modifies this
      ensures Valid()
      ensures partitions == old(partitions) && cursor == old(cursor)
      ensures Committed(old(groups[groupId]), p) <= |partitions[p - 1]|
      ensures var o := PollPartition(old(groups[groupId]), p, count, autoCommit, partitions[p - 1]);
              messages == o.result.value && groups == old(groups)[groupId := o.group]
    {
      var g := groups[groupId];
      var log := partitions[p - 1];
      var offset := Committed(g, p);
      messages := log[offset..offset + Min(count, |log| - offset)];
      ghost var o := PollPartition(g, p, count, autoCommit, log);
      PollPartitionKeepsOffsets(g, p, count, autoCommit, partitions);
      if autoCommit && messages != [] {
        groups := groups[groupId := g.(offsets := g.offsets[p := offset + |messages|])];
      } else {
        MapUpdateSame(groups, groupId);
      }
      GroupsValidAfterUpdate(old(groups), groupId, o.group, partitions);
    }
  }
}
