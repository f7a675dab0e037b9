/**
 * The consumer-group scenario's own arithmetic, over its three partitions:
 * which partition it expects the e-th keyless message on, which entity id a
 * member expects first, and which entity id the i-th poll of a partition
 * must carry. These are the facts the scenario's assertions rest on.
 */
module ScenarioArithmetic {
  const StreamId: nat := 1
  const TopicId: nat := 1
  const ConsumerGroupId: nat := 1
  const PartitionsCount: nat := 3
  const MessagesCount: nat := 1000

  /** x mod 3 with 0 mapped to 3: the scenario's wrap of a number into 1..3. */
  function WrapToRange(x: nat): (r: nat)
    ensures 1 <= r <= PartitionsCount
    ensures x >= 1 ==> r == (x - 1) % PartitionsCount + 1
    ensures 1 <= x <= PartitionsCount ==> r == x
  {
    if x % PartitionsCount == 0 then PartitionsCount else x % PartitionsCount
  }

  /** The partition the scenario expects its e-th keyless message on. */
  function ExpectedPartition(entityId: nat): (p: nat)
    ensures 1 <= p <= PartitionsCount
    ensures entityId >= 1 ==> p == (entityId - 1) % PartitionsCount + 1
  {
    WrapToRange(entityId)
  }

  /** The entity id a member holding partition p expects in its first message. */
  function StartEntityId(partitionId: nat): (e: nat)
    ensures 1 <= e <= PartitionsCount
    ensures 1 <= partitionId <= PartitionsCount ==> e == partitionId
  {
    WrapToRange(partitionId)
  }

  /** The entity id the i-th poll (1-based) of partition p must carry. */
  function ExpectedEntityId(partitionId: nat, i: nat): (e: nat)
    requires i >= 1
    ensures e >= i
    ensures (e - 1) / PartitionsCount == i - 1
  {
    StartEntityId(partitionId) + (i - 1) * PartitionsCount
  }

  /** The entity id expected at the i-th poll of p was sent to p. */
  lemma ExpectedEntityIdRoutesBack(p: nat, i: nat)
    requires 1 <= p <= PartitionsCount && i >= 1
    ensures ExpectedEntityId(p, i) >= 1
    ensures ExpectedPartition(ExpectedEntityId(p, i)) == p
  {
  }

  /** Every entity id is the one expected at exactly one (partition, poll) pair. */
  lemma EntityIdFromPartitionAndPoll(e: nat)
    requires e >= 1
    ensures ExpectedEntityId(ExpectedPartition(e), (e - 1) / PartitionsCount + 1) == e
  {
  }

  /** Later polls of a partition carry larger entity ids. */
  lemma ExpectedEntityIdIncreasing(p: nat, i: nat, j: nat)
    requires 1 <= i < j
    ensures ExpectedEntityId(p, i) < ExpectedEntityId(p, j)
  {
  }

  /**
   * How many of the entity ids 1..e the scenario sends to partition p,
   * counted one send at a time.
   */
  function SentTo(e: nat, p: nat): nat
  {
    if e == 0 then 0
    else SentTo(e - 1, p) + (if ExpectedPartition(e) == p then 1 else 0)
  }

  /** Closed form of the count: partition p has received (e + 3 - p) / 3 messages. */
  lemma {:induction false} SentToClosedForm(e: nat, p: nat)
    requires 1 <= p <= PartitionsCount
    ensures SentTo(e, p) == (e + PartitionsCount - p) / PartitionsCount
  {
    if e > 0 {
      SentToClosedForm(e - 1, p);
    }
  }

  /** Over k full rounds of keyless sends every partition receives exactly k messages. */
  lemma FullRoundsAreBalanced(k: nat, p: nat)
    requires 1 <= p <= PartitionsCount
    ensures SentTo(k * PartitionsCount, p) == k
  {
    SentToClosedForm(k * PartitionsCount, p);
  }

  /**
   * When the scenario sends entity e + 1, its partition q has so far
   * received exactly the entity ids q, q + 3, ..., so the new one lands at
   * the position whose expected entity id is e + 1.
   */
  lemma NextEntityIdLandsInPlace(e: nat)
    ensures ExpectedEntityId(ExpectedPartition(e + 1), SentTo(e, ExpectedPartition(e + 1)) + 1) == e + 1
  {
    SentToClosedForm(e, ExpectedPartition(e + 1));
  }
}
