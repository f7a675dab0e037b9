/**
 * The server's registry of streams and their topics, addressed by numeric
 * ids. Deleting a stream removes its topics and, with them, their consumer
 * groups and committed offsets; creating them again starts from empty logs.
 */
module Brokers {
  import opened ConsumerGroups
  import opened Topics

  class Broker {
    var streams: set<nat>
    /** The topic with id t of stream s, under the key (s, t). */
    var topics: map<(nat, nat), Topic>

    predicate Valid()
      reads this, topics.Values
    {
      forall k :: k in topics ==> k.0 in streams && topics[k].Valid()
    }

    constructor ()
      ensures Valid() && streams == {} && topics == map[]
    {
      streams := {};
      topics := map[];
    }

    /** The topic a request names, or NotFound. */
    function TopicFor(streamId: nat, topicId: nat): (r: Result<Topic>)
      reads this
      ensures r.Ok? <==> (streamId, topicId) in topics
      ensures r.Ok? ==> r.value == topics[(streamId, topicId)]
    {
      if (streamId, topicId) in topics then Ok(topics[(streamId, topicId)]) else Err(NotFound)
    }

    /** Registers a stream id; one already registered is AlreadyExists. */
    method CreateStream(streamId: nat) returns (r: Result<()>)
      requires Valid()
      modifies this
      ensures Valid() && topics == old(topics)
      ensures streamId in old(streams) ==> r == Err(AlreadyExists) && streams == old(streams)
      ensures streamId !in old(streams) ==> r == Ok(()) && streams == old(streams) + {streamId}
    {
      if streamId in streams {
        return Err(AlreadyExists);
      }
      streams := streams + {streamId};
      return Ok(());
    }

    /**
     * Creates a topic of partitionsCount empty partitions in a stream: an
     * unknown stream is NotFound, a topic id in use is AlreadyExists and a
     * topic without partitions is InvalidState.
     */
    method CreateTopic(streamId: nat, topicId: nat, partitionsCount: nat, keyHash: nat -> nat) returns (r: Result<()>)
      requires Valid()
      modifies this
      ensures Valid() && streams == old(streams)
      ensures streamId !in streams ==> r == Err(NotFound) && topics == old(topics)
      ensures streamId in streams && (streamId, topicId) in old(topics) ==> r == Err(AlreadyExists) && topics == old(topics)
      ensures streamId in streams && (streamId, topicId) !in old(topics) && partitionsCount == 0 ==>
                r == Err(InvalidState) && topics == old(topics)
      ensures streamId in streams && (streamId, topicId) !in old(topics) && partitionsCount > 0 ==>
                && r == Ok(())
                && (streamId, topicId) in topics
                && topics == old(topics)[(streamId, topicId) := topics[(streamId, topicId)]]
                && var t := topics[(streamId, topicId)];
                   && fresh(t) && t.partitionsCount == partitionsCount && t.keyHash == keyHash
                   && t.partitions == seq(partitionsCount, _ => []) && t.cursor == 0 && t.groups == map[]
    {
      if streamId !in streams {
        return Err(NotFound);
      }
      if (streamId, topicId) in topics {
        return Err(AlreadyExists);
      }
      if partitionsCount == 0 {
        return Err(InvalidState);
      }
      var t := new Topic(partitionsCount, keyHash);
      topics := topics[(streamId, topicId) := t];
      return Ok(());
    }

    /** Removes a stream and every topic in it; an unknown stream is NotFound. */
    method DeleteStream(streamId: nat) returns (r: Result<()>)
      requires Valid()
      modifies this
      ensures Valid()
      ensures streamId !in old(streams) ==> r == Err(NotFound) && streams == old(streams) && topics == old(topics)
      ensures streamId in old(streams) ==>
                && r == Ok(())
                && streams == old(streams) - {streamId}
                && topics == map k | k in old(topics) && k.0 != streamId :: old(topics)[k]
    {
      if streamId !in streams {
        return Err(NotFound);
      }
      streams := streams - {streamId};
      topics := map k | k in topics && k.0 != streamId :: topics[k];
      return Ok(());
    }
  }

  /** A registry holding one valid topic, in a registered stream, is valid. */
  lemma OneTopicValid(b: Broker, k: (nat, nat), t: Topic)
    requires b.topics == map[k := t] && k.0 in b.streams && t.Valid()
    ensures b.Valid()
  {
  }

  /** Removing the only stream any topic belongs to leaves no topics. */
  lemma DeleteOnlyStream(topics: map<(nat, nat), Topic>, streamId: nat)
    requires forall k :: k in topics ==> k.0 == streamId
    ensures (map k | k in topics && k.0 != streamId :: topics[k]) == map[]
  {
  }
}
