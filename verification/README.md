# Verified model of the drt-go-chain-p2p core

A Dafny 4.11 model of the parts of the peer-to-peer layer that carry its hardest promises, with
proofs of these promises for all inputs and all runs. `dafny verify dfyconfig.toml` checks the
whole project.

| component | files | form |
|---|---|---|
| wire codec of `TopicMessage` | `Varint.dfy`, `TopicMessage.dfy` (formats as functions), `TopicMessageLaws.dfy`, `UnknownFields.dfy`, `DecodedFields.dfy` (laws), `WordNumbers.dfy`, `FieldMeanings.dfy` (the same as arithmetic on the bytes), `TopicMessagePb.dfy` (the message object, its backward encoder and its index loops) | bytes are `bv8`, words `bv64`, a Go `int` wraps at 64 bits |
| message envelope and message lists | `Envelope.dfy` | `NewMessage` is a function, `Serialize` and `Deserialize` are loops |
| connection eviction | `Quotas.dfy` (the quota cascade), `Eviction.dfy` (evictions of sets of peers, runs), `Admission.dfy` (ties), `Sorting.dfy`, `ListsSharder.dfy` (the sharder object), `EvictionOutcomes.dfy` (which lists it can propose), `Connections.dfy` (monitor and host), `Distances.dfy` | objects with methods over specification relations |
| outgoing channel load balancer | `LoadBalancer.dfy` (the registry object), `Forwarding.dfy` (senders, forwarders and collector as a state machine) | object, and steps over unbuffered channels |
| topic processor registration | `TopicRegistration.dfy` | objects over a registry value |
| peer bookkeeping | `Rating.dfy`, `PreferredPeers.dfy` | objects over specification functions |

How to read it: functions and predicates say what an operation does to a value; each method that
changes an object or runs a loop is proved equal to such a function; the lemmas are about the
functions, so they hold for the methods. Lemmas named after a meaning (`FieldMeaning`, `KeptMeans`,
`ViewMeans`, `PutShardMeans` and others) say what these functions give in the terms of their inputs
alone. A method locked by a mutex in the source is one step here.

Assumptions made explicit as parameters or `requires`: a buffer is shorter than 2^62 bytes; the
pubsub and batch codecs are inverse pairs and the batch codec reads the empty buffer as the empty
batch; the two rating caches are different objects; the hash of a peer id is some function to 32
bytes; closing a connection succeeds; a Go slice that is nil behaves as an empty one.

Four findings about the code, each with an input and its exact condition.

- The preferred peers holder does not renumber indexes on removal. `PreferredPeers.RemovalCanPanic`
  is a run that ends in an index out of range, `PreferredPeers.RemovalCanTakeAnother` one that
  silently deletes the entry of another peer. A removal takes the peer's own entry exactly when the
  list holds it at its recorded index (`RemoveOwnIff`), and leaves the holder consistent exactly
  when it is the last entry (`RemoveKeepsIff`).
- After the last handler of a topic is unregistered a nil entry stays, which makes every
  unregister-all fail until something registers there again (`TopicRegistration.LastUnregisterBlocks`;
  `UnregisterAllCanFail` is a run from the start). Unregister-all succeeds exactly when there is no
  nil entry, and one appears exactly that way (`NilAppearsIff`).
- The concatenation law of decoding holds for success, message and error, except that the overflow
  test uses the absolute index: `TopicMessageLaws.ErrorsDiffer` is an input at which the two sides
  name different errors, and `DecodeConcat` says exactly when they do.
- A peer that canConnectToPeer admits may be closed by the Connected event that follows, and a
  refused one could have stayed, when a tie in distance lies across the cut of its category:
  `Admission.AdmissionCanDisagree` has two seeders. `Admission.AdmissionAgrees` says exactly for
  which peers the two always agree; distances are at most 256, so ties are common.

## Model

| member | source | states |
|---|---|---|
| Varint.ReadEncoded | data/topicMessage.pb.go:309-323 | every 64-bit word written as a varint is read back, wherever it stands in a buffer |
| WordNumbers.ReadExactly | data/topicMessage.pb.go:309-323 | on every buffer: the loop succeeds exactly when one of the next ten bytes is below 128, behind the first such byte, with the base 128 numeral of these bytes modulo 2^64, shortest or not; else the error and the number gathered so far |
| Varint.EncodeLength | data/topicMessage.pb.go:238-248 | the varint of v has exactly sovTopicMessage(v) bytes |
| Varint.SovIsLeast | data/topicMessage.pb.go:276-278 | sovTopicMessage(v) is the least positive number of 7-bit groups that hold v |
| Varint.SovTen | data/topicMessage.pb.go:276-278 | a varint never needs more than ten bytes, and needs all ten exactly when the top bit is set |
| TopicMessageLaws.EncodeIsBase128 | data/topicMessage.pb.go:238-248 | the bytes of a varint, read as a base 128 numeral with the least digit first, are the number |
| TopicMessageLaws.NumberWidths | data/topicMessage.pb.go:254-262 | a negative timestamp takes ten varint bytes, any uint32 version at most five |
| TopicMessageLaws.WordRoundTrip | data/topicMessage.pb.go:204-207 | every length below 2^63 survives the conversion to a word and back, and is not negative |
| WordNumbers.TagNumbers | data/topicMessage.pb.go:324-330 | for every tag word w: wire type w mod 8, field number w / 8 mod 2^32, illegal when that is zero or at least 2^31 |
| FieldMeanings.WellFormedIff | data/topicMessage.pb.go:494-571 | which bytes are a field, by wire type 0 to 5, from the bytes by arithmetic alone |
| FieldMeanings.AcceptedIff | data/topicMessage.pb.go:324-491 | which fields the decoder takes: numbers 1 to 2^31 - 1, of these 1 and 3 as varints, 2, 4 and 5 as length-delimited |
| FieldMeanings.UnknownIff | data/topicMessage.pb.go:473-486 | unknown are exactly the numbers from 6 to 2^31 - 1 |
| FieldMeanings.FieldMeaning | data/topicMessage.pb.go:304-493 | field 1 sets the version to its numeral modulo 2^32, field 3 the timestamp to it modulo 2^64, fields 2, 4 and 5 the payload, key and signature to their bytes; any other changes nothing |
| FieldMeanings.RefusedTags | data/topicMessage.pb.go:326-356 | an end of group, an illegal number and a known field of the wrong type are refused in this order, each with its error |
| FieldMeanings.RefusedLengths | data/topicMessage.pb.go:371-380 | negative and overflowing lengths are invalid, others beyond the buffer end too early; nothing is changed |
| FieldMeanings.Unfinished | data/topicMessage.pb.go:333-351 | a version or timestamp that does not end leaves the number gathered so far, with the error of the buffer |
| FieldMeanings.RefusedSkips | data/topicMessage.pb.go:494-571 | what skipTopicMessage refuses at its first tag, and with which error |
| TopicMessageLaws.DecodeConcat | data/topicMessage.pb.go:304-493 | decoding a then b is decoding b into the message decoded from a, in success, message and error; the errors differ exactly when the failing field of b announces an end that is an int counted from b and not from a, and then they are an early end and an invalid length |
| TopicMessageLaws.ErrorsDiffer | data/topicMessage.pb.go:371-380 | an input at which they differ |
| TopicMessageLaws.DecodeEncodeInto | data/topicMessage.pb.go:304-493 | decoding Marshal(m) into any message overwrites exactly the fields of m that are not zero or empty |
| TopicMessageLaws.DecodeEncode | data/topicMessage.pb.go:184-247 | decoding Marshal(m) into a fresh message gives m back, for every m |
| TopicMessageLaws.EncodeInjective | data/topicMessage.pb.go:184-236 | different messages have different encodings |
| TopicMessage.EncodeSize | data/topicMessage.pb.go:249-275 | Size is the number of bytes Marshal produces |
| TopicMessagePb.TopicMessage.Equal | data/topicMessage.pb.go:126-161 | equality of all fields, false for nil |
| TopicMessagePb.EncodeVarintTopicMessage | data/topicMessage.pb.go:238-248 | the varint ends just before the offset, starts at the returned index, and no other byte changes |
| TopicMessagePb.TopicMessage.Size | data/topicMessage.pb.go:249-275 | the length of the encoding |
| TopicMessagePb.TopicMessage.MarshalToSizedBuffer | data/topicMessage.pb.go:199-236 | the encoding stands at the end of the buffer, has Size() bytes, and the bytes before it are untouched |
| TopicMessagePb.TopicMessage.Marshal | data/topicMessage.pb.go:184-192 | a buffer of Size() bytes filled exactly with the encoding |
| TopicMessagePb.ReadWord | data/topicMessage.pb.go:309-323 | the shift loop reads the varint at its start, with its overflow and end-of-buffer errors |
| TopicMessagePb.TopicMessage.ReadVersion | data/topicMessage.pb.go:333-351 | the 32-bit shift loop gathers the low 32 bits of the 64-bit value, also when it stops on an error |
| TopicMessagePb.TopicMessage.Unmarshal | data/topicMessage.pb.go:304-493 | on every buffer it terminates without reading outside it and computes the specified result and leftover message under wrapping arithmetic |
| TopicMessagePb.SkipTopicMessage | data/topicMessage.pb.go:494-571 | on every buffer it terminates without reading outside it; success means a positive length |
| UnknownFields.SkipField | data/topicMessage.pb.go:494-571 | skipping a well-formed field, with groups nested to any depth and any bytes behind it, returns its length |
| UnknownFields.SkipIffField | data/topicMessage.pb.go:494-571 | a skip of n bytes succeeds inside the buffer if and only if these bytes are the encoding of a field |
| UnknownFields.UnknownIgnored | data/topicMessage.pb.go:473-486 | unknown fields between two parts of a message change neither the decoded message nor whether decoding succeeds, and the error only in the one case of DecodeConcat |
| DecodedFields.DecodesIffFields | data/topicMessage.pb.go:304-493 | Unmarshal succeeds with a message exactly on the concatenations of well-formed fields of legal number, the known ones of the right wire type, and the message is the fold of these fields |
| UnknownFields.EncodeIsRecords | data/topicMessage.pb.go:199-236 | Marshal writes well-formed records in ascending order of their field numbers |
| Envelope.UnpackRecovers | libp2p/message.go:18-65 | NewMessage recovers exactly the payload and timestamp packed by createMessageBytes |
| Envelope.AcceptedExactly | libp2p/message.go:38-61 | of the encoded messages exactly those of version 1 without key and signature, on a topic and from a sender that parses, are accepted |
| Envelope.RefusedWith | libp2p/message.go:18-61 | the error for a missing topic, another version, a used key or signature and an unparsable sender, tested in this order |
| Envelope.UnknownFieldsTolerated | libp2p/message.go:38-56 | unknown fields behind a packed message change only the raw bytes of the received one |
| Envelope.ReceivedAgain | messageCheck/messageVerifier.go:94-132 | a received message converted to its pubsub form and back is itself |
| Envelope.DeserializeSerialize | messageCheck/messageVerifier.go:135-195 | Deserialize(Serialize(list)) is the list in order without its nil entries |
| Envelope.DeserializeInserted | messageCheck/messageVerifier.go:178-192 | one more buffer among others: no pubsub message makes all fail, one that does not unpack changes nothing, any other adds its message in its place |
| Envelope.SerializesIff | messageCheck/messageVerifier.go:135-165 | fails exactly when some message, or the batch of them, cannot be encoded; nothing but nil gives the empty buffer |
| Envelope.NonNilAt | messageCheck/messageVerifier.go:137-142 | the list without nil keeps every other entry, in order |
| Envelope.MessageVerifier.Serialize | messageCheck/messageVerifier.go:135-165 | the loop encodes the non-nil messages in order, stops on the first that cannot be encoded, and gives the empty buffer for none |
| Envelope.MessageVerifier.Deserialize | messageCheck/messageVerifier.go:168-195 | the loop stops on a buffer that is no pubsub message and passes over one that does not unpack |
| Quotas.KeepIsFeasible | libp2p/networksharding/listsSharder.go:212-245 | the cascade respects every prefix of the quotas, and no category within its own quota loses a peer |
| Quotas.KeepIsOptimal | libp2p/networksharding/listsSharder.go:212-245 | no admissible choice keeps more peers on any prefix of the chain |
| Quotas.KeepsAllIff | libp2p/networksharding/listsSharder.go:212-245 | nobody is dropped exactly when every prefix of the chain is within its quotas |
| Eviction.KeptMeans | libp2p/networksharding/listsSharder.go:212-225 | what each category keeps, by name: the five of the chain share their limits in this order, seeders and full history observers keep to their own |
| Eviction.WithinLimitsMeans | libp2p/networksharding/listsSharder.go:196-235 | the inequalities behind an empty eviction, written out by category |
| Eviction.EvictionUnique | libp2p/networksharding/listsSharder.go:330-346 | without ties inside a category an eviction is determined by the set of peers |
| Eviction.OnlyEvictionIff | libp2p/networksharding/listsSharder.go:330-346 | an eviction is the only possible one exactly when no tie lies across its cut |
| Eviction.EmptyEvictionIff | libp2p/networksharding/listsSharder.go:196-235 | an eviction is empty exactly when the prefix-quota inequalities and the two strict limits hold |
| Eviction.WithinLimitsSubset | libp2p/networksharding/listsSharder.go:196-235 | these inequalities are closed under subsets |
| Eviction.EvictionSettles | libp2p/connectionMonitor/libp2pConnectionMonitorSimple.go:95-98 | what an eviction leaves satisfies them |
| Eviction.CountedBound | libp2p/networksharding/listsSharder.go:183-190 | within them the counted peers are at most all limits together |
| Eviction.OneEvictionAtMost | libp2p/connectionMonitor/libp2pConnectionMonitorSimple.go:87-99 | one more connection costs at most one connection |
| Eviction.RunStaysWithinLimits | libp2p/connectionMonitor/libp2pConnectionMonitorSimple.go:87-108 | every run of Connected and Disconnected keeps the next eviction empty and the counted peers within the maximum, and no step closes more than one peer |
| Eviction.RunFromNobody | libp2p/connectionMonitor/libp2pConnectionMonitorSimple.go:87-108 | the same, with all clauses, for every run from no connections |
| Eviction.NextConnectionSettles | libp2p/connectionMonitor/libp2pConnectionMonitorSimple.go:87-108 | when peers change category or distance during a run, from any connected set the next Connected restores the limits |
| Admission.EvictionExists | libp2p/networksharding/listsSharder.go:330-346 | every set of peers has an eviction |
| Admission.NeverEvictedIff | libp2p/networksharding/listsSharder.go:330-346 | no eviction takes a peer exactly when those of its category that are no farther are at most the number kept |
| Admission.AlwaysEvictedIff | libp2p/networksharding/listsSharder.go:330-346 | every eviction takes a peer exactly when the nearer ones of its category are at least the number kept |
| Admission.AdmissionAgrees | libp2p/discovery/hostWithConnectionManagement.go:70-82 | for all connected sets and peers: canConnectToPeer admits the peer exactly when it survives the following Connected step, whatever the two sorts do, if and only if one of these two conditions decides the peer |
| Admission.TieFreeDecides | libp2p/networksharding/sorting/peerDistances.go:25-27 | without ties in a category every peer is decided |
| Admission.AdmissionCanDisagree | libp2p/discovery/hostWithConnectionManagement.go:70-82 | two equally far seeders where one is allowed: admitted and then closed, or refused though it could stay |
| ListsSharder.LimitsFillTarget | libp2p/networksharding/listsSharder.go:164-193 | each limit is the configured one, unknown peers get what is left of maxPeerCount, and a configuration is refused exactly when that is nothing |
| ListsSharder.ExemptExactly | libp2p/networksharding/listsSharder.go:277-325 | only preferred peers that are no seeders, and peers of no known type, escape the lists |
| ListsSharder.ClassifiedExactly | libp2p/networksharding/listsSharder.go:277-325 | an if-and-only-if for each of the seven categories and for the exempt peers, by seeder, preferred, type, shard and full history |
| ListsSharder.SeedsIff | libp2p/networksharding/listsSharder.go:382-395 | a seeder is a peer whose printed id occurs in a seeder address |
| ListsSharder.ListsSharder.ViewMeans | libp2p/networksharding/listsSharder.go:262-325 | the same for the sharder object in terms of its fields; its distance is the number of differing hash bits |
| ListsSharder.SplitKeepsOrder | libp2p/networksharding/listsSharder.go:277-325 | each peer of a category is on its list with its distance, in the order of the peers |
| ListsSharder.EvictionListEvicts | libp2p/networksharding/listsSharder.go:196-346 | on distinct peers the list from sorting and cutting is an eviction of the set: right count in each category, nobody in it nearer than one who stays |
| ListsSharder.OrderIndependent | libp2p/networksharding/listsSharder.go:262-346 | without ties the evicted set is the same for every ordering of the peers and every outcome of the sort |
| ListsSharder.ManyPeersTie | libp2p/networksharding/listsSharder.go:349-360 | bit count distances are at most 256, so a category of more than 257 peers has a tie |
| EvictionOutcomes.ListsAreEvictions | libp2p/networksharding/listsSharder.go:196-346 | the sets that can be proposed for distinct peers are exactly the evictions of these peers |
| EvictionOutcomes.OrderMattersIff | libp2p/networksharding/listsSharder.go:262-346 | all orderings of the peers and outcomes of the sort agree on a peer if and only if it is decided |
| EvictionOutcomes.NearToFar | libp2p/networksharding/listsSharder.go:220-235 | the proposed list goes category by category in the source's order, and from near to far in each |
| ListsSharder.ListsSharder.NewListsSharder | libp2p/networksharding/listsSharder.go:119-162 | builds a sharder exactly for the configurations that pass the checks, with limits that fill maxPeerCount |
| ListsSharder.ListsSharder.SplitPeerIds | libp2p/networksharding/listsSharder.go:262-328 | the loop puts each peer on the list of its category, in order, with the number of differing hash bits as its distance |
| ListsSharder.ListsSharder.Evict | libp2p/networksharding/listsSharder.go:330-346 | the tail of some sorted permutation |
| ListsSharder.ListsSharder.ComputeEvictionList | libp2p/networksharding/listsSharder.go:196-235 | the seven tails, cut at the counts of the cascade and the strict limits |
| Sorting.Swap | libp2p/networksharding/sorting/peerDistances.go:30-32 | exchanges two entries and nothing else |
| Sorting.Sort | libp2p/networksharding/sorting/peerDistances.go:17-32 | a sorted permutation, reached through Len, Less and Swap |
| Connections.ConnectionMonitor.Connected | libp2p/connectionMonitor/libp2pConnectionMonitorSimple.go:87-99 | closes exactly one eviction of the connected peers, so a decided peer stays exactly when it has room; noting the address changes no classification |
| Connections.ConnectionMonitor.Disconnected | libp2p/connectionMonitor/libp2pConnectionMonitorSimple.go:102-114 | removes the connection's id from the holder and asks for a reconnection below the threshold |
| Connections.SettlingIsEvent | libp2p/connectionMonitor/libp2pConnectionMonitorSimple.go:87-99 | what Connected does is a step of the runs above |
| Connections.HostWithConnectionManagement.CanConnectToPeer | libp2p/discovery/hostWithConnectionManagement.go:70-82 | refuses exactly a peer that an eviction of the connected peers and it would propose; a decided peer exactly when it has no room |
| Distances.TableIsLeadingZeros | libp2p/networksharding/listsSharder.go:38-74 | the table gives the number of leading zeros of every byte |
| Distances.CountingIsMetric | libp2p/networksharding/listsSharder.go:349-360 | symmetric, zero exactly on equal hashes, triangle inequality |
| Distances.CountingIsHamming | libp2p/networksharding/listsSharder.go:349-360 | the number of bit positions at which the hashes differ, the bits read off the bytes by division |
| Distances.CountingWithinLog2 | libp2p/networksharding/listsSharder.go:349-379 | the bit count never exceeds the log2 distance, which is at most 8 times the hash length |
| Distances.Log2Symmetric | libp2p/networksharding/listsSharder.go:363-379 | symmetric |
| Distances.Log2Zero | libp2p/networksharding/listsSharder.go:363-379 | zero exactly on equal hashes |
| Distances.Log2Ultrametric | libp2p/networksharding/listsSharder.go:363-379 | d(a,c) is at most the greater of d(a,b) and d(b,c) |
| Distances.Log2IsBitLength | libp2p/networksharding/listsSharder.go:363-379 | the bit length of the XOR of the hashes, read as one big-endian integer |
| Distances.ComputeDistanceByCountingBits | libp2p/networksharding/listsSharder.go:349-360 | the loop counts the differing bits |
| Distances.ComputeDistanceLog2Based | libp2p/networksharding/listsSharder.go:363-379 | the loop with its table and its early exit computes the position of the highest differing bit |
| LoadBalancer.RunOfNames | libp2p/outgoingChannelLoadBalancer.go:69-126 | after every run the names have no duplicates and the default first, and a name is registered exactly when the last operation on it was an Add |
| LoadBalancer.OutgoingChannelLoadBalancer.AddChannel | libp2p/outgoingChannelLoadBalancer.go:69-86 | adds an unknown name at the end with a new open channel; slices and map keep agreeing |
| LoadBalancer.OutgoingChannelLoadBalancer.RemoveChannel | libp2p/outgoingChannelLoadBalancer.go:89-126 | removes the entry of a name, keeps the order of the rest, closes its channel, with the source's errors |
| LoadBalancer.OutgoingChannelLoadBalancer.GetChannelOrDefault | libp2p/outgoingChannelLoadBalancer.go:129-139 | what a linear search of the names gives, the default for unknown names, never a closed channel |
| Forwarding.DeliveredIsPrefix | libp2p/outgoingChannelLoadBalancer.go:46-155 | in every interleaving the non-nil items collected from a channel are a prefix, in order, of those sent to it, lagging by at most one |
| Forwarding.AcceptedIsSent | libp2p/outgoingChannelLoadBalancer.go:52-63 | a forwarder accepts exactly what the senders hand to its channel, in order |
| Forwarding.NamesKeepChannels | libp2p/outgoingChannelLoadBalancer.go:69-139 | a registered name keeps its channel through every step but its removal; adding gives a new open one, removing closes it and leads to the default |
| Forwarding.OnlyAfterClose | libp2p/outgoingChannelLoadBalancer.go:52-63 | a forwarder returns only after Close, and nil is collected only from removed channels |
| Forwarding.ReturnedForGood | libp2p/outgoingChannelLoadBalancer.go:55-60 | a returned forwarder takes and hands on nothing more |
| Forwarding.OpenWhileRegistered | libp2p/outgoingChannelLoadBalancer.go:129-139 | in every reachable state the channel handed out for a name is open |
| Forwarding.ClosedForGood | libp2p/outgoingChannelLoadBalancer.go:89-126 | a removed channel accepts nothing more, also when its name is added again |
| Forwarding.NamesFollow | libp2p/outgoingChannelLoadBalancer.go:69-126 | the names of the state machine are those of the registry object |
| TopicRegistration.RegisterKeeps | libp2p/netMessenger.go:1090-1115 | registering keeps validators and processors in agreement, and pubsub never refuses |
| TopicRegistration.RegisterAdds | libp2p/netMessenger.go:1090-1115 | who handles what afterwards: one handler more and no other change, refused exactly for a nil handler and for an identifier in use on the topic |
| TopicRegistration.UnregisterRemoves | libp2p/netMessenger.go:1275-1297 | who handles what afterwards: exactly this handler is gone, however many the topic has; refused exactly when the topic has handlers but not this one |
| TopicRegistration.UnregisterAllRemoves | libp2p/netMessenger.go:1232-1245 | the handlers of the topics visited before the first one without a validator are gone, all others stay |
| TopicRegistration.UnregisterKeeps | libp2p/netMessenger.go:1275-1297 | so does unregistering |
| TopicRegistration.UnregisterAllKeeps | libp2p/netMessenger.go:1232-1245 | so does unregistering all, in any order and also when it stops; it succeeds exactly when no nil entry is left, and then everything is gone |
| TopicRegistration.RunAgrees | libp2p/netMessenger.go:1090-1115 | in every run the validators are exactly the topics with a non-nil entry, each with a handler |
| TopicRegistration.UnregisterAllBlocked | libp2p/netMessenger.go:1232-1245 | while a topic has a nil entry, unregister-all fails, whatever happens, until something registers there |
| TopicRegistration.LastUnregisterLeavesNil | libp2p/netMessenger.go:1289-1294 | unregistering the only handler of a topic succeeds, removes the validator, leaves the nil entry and touches no other topic |
| TopicRegistration.NilAppearsIff | libp2p/netMessenger.go:1275-1297 | an operation makes a nil entry exactly when it unregisters the only handler of that topic |
| TopicRegistration.LastUnregisterBlocks | libp2p/netMessenger.go:1289-1294 | after the last handler of a topic goes, unregister-all fails until something registers there again |
| TopicRegistration.UnregisterAllCanFail | libp2p/netMessenger.go:1232-1245 | from the start, one handler registered and unregistered: every iteration of unregister-all then fails |
| TopicRegistration.TopicProcessors.GetList | libp2p/topicProcessors.go:55-68 | every identifier once, beside its handler |
| TopicRegistration.TopicProcessors.AddTopicProcessor | libp2p/topicProcessors.go:21-36 | inserts a new identifier, refuses a known one |
| TopicRegistration.TopicProcessors.RemoveTopicProcessor | libp2p/topicProcessors.go:38-53 | deletes a known identifier, refuses an unknown one |
| TopicRegistration.NetworkMessenger.RegisterMessageProcessor | libp2p/netMessenger.go:1090-1115 | the new registry and error of the specification |
| TopicRegistration.NetworkMessenger.UnregisterMessageProcessor | libp2p/netMessenger.go:1275-1297 | the new registry and error of the specification |
| TopicRegistration.NetworkMessenger.UnregisterAllMessageProcessors | libp2p/netMessenger.go:1232-1245 | for some order of iteration, the registry and error of the specification |
| Rating.RunInTiers | rating/peersRatingHandler.go:68-172 | whatever the caches drop, no peer is in both tiers, top ratings stay in 0..100 and bad ones in -100..-1 |
| Rating.RunRefines | rating/peersRatingHandler.go:68-172 | without drops the two caches are one map: 0 on the first touch, then clamped steps of +2 and -1 |
| Rating.StepWithDrops | rating/peersRatingHandler.go:68-172 | an operation during which the caches drop peers gives every peer its rating as without drops, or the peer was dropped |
| Rating.OnlyIncreases | rating/peersRatingHandler.go:112-137 | d increases after the first touch add 2 each, up to 100 |
| Rating.ChosenExactly | rating/peersRatingHandler.go:175-193 | each occurrence of a top rated peer is chosen once, of a bad rated one exactly when fewer top rated entries than the minimum are in the list, of an unrated one never; a minimum below one gives nobody |
| Rating.TopRatedFirst | rating/peersRatingHandler.go:187-192 | top rated peers come before bad rated ones |
| Rating.AmongAt | rating/peersRatingHandler.go:218-233 | the selection of a tier keeps the order of the list |
| Rating.PeersRatingHandler.UpdateRatingIfNeeded | rating/peersRatingHandler.go:112-137 | the new contents of both caches, with clamping and the move between tiers |
| Rating.PeersRatingHandler.MovePeerToNewTier | rating/peersRatingHandler.go:163-172 | the peer leaves the one cache and enters the other |
| Rating.PeersRatingHandler.SplitPeersByTiers | rating/peersRatingHandler.go:218-233 | the two in-order selections |
| Rating.PeersRatingHandler.GetTopRatedPeersFromList | rating/peersRatingHandler.go:175-193 | the specified choice |
| PreferredPeers.RunOfPuts | peersHolder/peersHolder.go:59-133 | every run of PutConnectionAddress, PutShardID and Clear leaves each held peer at its recorded shard and index, every listed id held, one info per peer and address, with the recorded shard for held peers and without one for waiting peers |
| PreferredPeers.RunFromStart | peersHolder/peersHolder.go:59-250 | the same with removals of last entries in between; no such run panics |
| PreferredPeers.KnownIsFirst | peersHolder/peersHolder.go:213-221 | the preferred address of least index that occurs in the given one, and the empty string when none does |
| PreferredPeers.PutConnectionMeans | peersHolder/peersHolder.go:59-90 | what a connection changes: one info without shard and the waiting address, unless there is an info already |
| PreferredPeers.PutShardMeans | peersHolder/peersHolder.go:103-133 | what a shard changes for a waiting peer: listed last, recorded there, its info completed, no longer waiting |
| PreferredPeers.RemoveForgets | peersHolder/peersHolder.go:158-208 | removing a peer that is not held changes nothing; in any state the removed peer is neither held nor waiting, other records stay, and no empty shard list is kept |
| PreferredPeers.ClearForgets | peersHolder/peersHolder.go:242-250 | afterwards nobody is held or waiting and every list is empty; the preferred addresses stay |
| PreferredPeers.RemoveExact | peersHolder/peersHolder.go:158-229 | from a consistent state Remove deletes exactly the recorded entry and the peer's only info under its address; other entries, lists, infos, peers and records stay |
| PreferredPeers.RemoveKeepsIff | peersHolder/peersHolder.go:224-229 | the state stays consistent exactly when no recorded entry stands behind the removed one and the peer is listed once |
| PreferredPeers.RemoveOwnIff | peersHolder/peersHolder.go:224-229 | in any state: Remove deletes the peer's own entry if and only if the list holds it at the recorded index, else it panics or deletes another |
| PreferredPeers.RemovalCanPanic | peersHolder/peersHolder.go:224-229 | a run of puts and two removals that ends in an index out of range |
| PreferredPeers.RemovalCanTakeAnother | peersHolder/peersHolder.go:224-229 | of three peers of one shard, removing the first and the second deletes the entry of the third |
| PreferredPeers.NewPeer | peersHolder/peersHolder.go:59-133 | a new preferred peer whose shard becomes known is held, listed last in its shard and noted under its address |
| PreferredPeers.PeersHolder.PutConnectionAddress | peersHolder/peersHolder.go:59-90 | the specified state; the held peers do not change |
| PreferredPeers.PeersHolder.PutShardID | peersHolder/peersHolder.go:103-133 | the specified state |
| PreferredPeers.PeersHolder.RemovePeer | peersHolder/peersHolder.go:158-208 | the specified state, or the panic with nothing changed |
| PreferredPeers.PeersHolder.GetKnownConnection | peersHolder/peersHolder.go:213-221 | the first preferred address contained in the given one |
| PreferredPeers.PeersHolder.Clear | peersHolder/peersHolder.go:242-250 | forgets everything but the preferred addresses |

## Left out

- Connections.ConnectionMonitor.Disconnected: the reconnection channel is the flag `reconnect`; the loop that serves it and its timer are not modelled.
- Sorting.Sort: an insertion sort stands for the sort of the Go library, of which only a sorted permutation is used.
- Slices that share memory: `append(m.Payload[:0], …)` reuses the old backing array, `Get` of the preferred peers holder hands out its own lists, and a removal shifts them in place; byte slices and lists are values here.
- The marshaller is the protobuf one; the JSON marshaller, under which an empty buffer does not decode to an empty batch, is not modelled.
- The nil that the collector returns once the load balancer is closed, which its caller drops.
- Senders that are blocked on a channel while it is removed (they panic in Go) and fairness of the forwarders.
- The context errors of pubsub: it refuses only duplicates and missing validators.
- core.AllShardId is the missing shard `None`; the validation of preferred connection strings and base58 names of peer ids belong to other files and are parameters or left to the caller.
- The pubsub callback and the timestamp window check, which would add only plain branches.
- `message/peerShardMessage.pb.go`: the same codec with one field.
- `libp2p/networksharding/oneListSharder.go`, the nil sharder and the factories.
- Hosts, streams, dialling, discovery, gossip, direct sending, debugging statistics, logging, signing and hashing.
