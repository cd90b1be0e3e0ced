/** The envelope around the wire format: libp2p/message.go unpacks and validates what
    createMessageBytes packed, and messageCheck/messageVerifier.go ships lists of messages.
    The pubsub and batch codecs and the parsing of peer ids belong to other repositories: they are
    parameters. */
module Envelope {
  import opened Wrappers
  import opened Varint
  import Wire = TopicMessage
  import Laws = TopicMessageLaws
  import UnknownFields

  type Bytes = seq<Byte>

  /** pubsubPb.Message; its topic is a pointer. */
  datatype PubsubMessage = PubsubMessage(
    from: Bytes, data: Bytes, seqno: Bytes, topic: Option<string>, signature: Bytes, key: Bytes)

  /** message.Message */
  datatype P2PMessage = P2PMessage(
    from: Bytes, data: Bytes, payload: Bytes, seqNo: Bytes, topic: string, signature: Bytes, key: Bytes,
    peer: PeerId, timestamp: bv64)

  datatype MessageError =
    | NilMessage
    | NilTopic
    | UnmarshalFailed(cause: Error)
    | UnsupportedVersion(got: bv32)
    | UnsupportedFields
    | BadPeerId
    | CodecFailed

  /** Parses the bytes of a peer id (peer.IDFromBytes). */
  type PeerParser = Bytes -> Option<PeerId>

  const CURRENT_VERSION: bv32 := 1

  /** createMessageBytes: buff sent at the given time. */
  function CreateMessageBytes(buff: Bytes, now: bv64): Bytes
    requires |buff| < Wire.MAX_LENGTH / 2
  {
    Wire.Encode(Wire.Message(CURRENT_VERSION, buff, now, [], []))
  }

  /** NewMessage */
  function NewMessage(msg: Option<PubsubMessage>, parse: PeerParser): Result<P2PMessage, MessageError> {
    if msg == None then Err(NilMessage)
    else
      var pm := msg.value;
      if pm.topic == None then Err(NilTopic)
      else
        var decoded := Wire.Decode(Wire.EMPTY, pm.data);
        if decoded.err != None then Err(UnmarshalFailed(decoded.err.value))
        else if decoded.msg.version != CURRENT_VERSION then Err(UnsupportedVersion(decoded.msg.version))
        else if |decoded.msg.signatureOnPid| + |decoded.msg.pk| > 0 then Err(UnsupportedFields)
        else
          match parse(pm.from)
          case None => Err(BadPeerId)
          case Some(id) =>
            Ok(P2PMessage(pm.from, decoded.msg.payload, pm.data, pm.seqno, pm.topic.value, pm.signature, pm.key,
                          id, decoded.msg.timestamp))
  }

  /** A message that NewMessage could have returned. */
  ghost predicate IsReceived(m: P2PMessage, parse: PeerParser) {
    exists pm: PubsubMessage :: NewMessage(Some(pm), parse) == Ok(m)
  }

  /** convertP2PMessagetoPubSubMessage */
  function ToPubsub(m: P2PMessage): PubsubMessage {
    PubsubMessage(m.from, m.payload, m.seqNo, Some(m.topic), m.signature, m.key)
  }

  // ---------- one message ----------

  /** NewMessage recovers exactly the payload and the timestamp that were packed. */
  lemma UnpackRecovers(buff: Bytes, now: bv64, pm: PubsubMessage, parse: PeerParser)
    requires |buff| < Wire.MAX_LENGTH / 2
    requires pm.data == CreateMessageBytes(buff, now) && pm.topic != None && parse(pm.from) != None
    ensures NewMessage(Some(pm), parse) ==
            Ok(P2PMessage(pm.from, buff, pm.data, pm.seqno, pm.topic.value, pm.signature, pm.key,
                          parse(pm.from).value, now))
  {
    Laws.DecodeEncode(Wire.Message(CURRENT_VERSION, buff, now, [], []));
  }

  /** Of the messages on the wire, NewMessage accepts those of the current version without key
      and signature, from a sender it can parse, and no others. */
  lemma AcceptedExactly(m: Wire.Message, pm: PubsubMessage, parse: PeerParser)
    requires Wire.Sized(m) && pm.data == Wire.Encode(m)
    ensures NewMessage(Some(pm), parse).Ok? <==>
            && pm.topic != None
            && m.version == 1 && m.pk == [] && m.signatureOnPid == []
            && parse(pm.from) != None
  {
    Laws.DecodeEncode(m);
  }

  /** Which error an encoded message is refused with: the tests are on the topic, the version, the two
      unused fields and the sender, in this order. */
  lemma RefusedWith(m: Wire.Message, pm: PubsubMessage, parse: PeerParser)
    requires Wire.Sized(m) && pm.data == Wire.Encode(m)
    ensures NewMessage(None, parse) == Err(NilMessage)
    ensures var r := NewMessage(Some(pm), parse);
            && (pm.topic == None ==> r == Err(NilTopic))
            && (pm.topic != None && m.version != 1 ==> r == Err(UnsupportedVersion(m.version)))
            && (pm.topic != None && m.version == 1 && (m.pk != [] || m.signatureOnPid != []) ==> r == Err(UnsupportedFields))
            && (pm.topic != None && m.version == 1 && m.pk == [] && m.signatureOnPid == [] && parse(pm.from) == None ==>
                  r == Err(BadPeerId))
  {
    Laws.DecodeEncode(m);
  }

  /** Bytes that do not decode are refused with the error of the decoder. */
  lemma UndecodableRefused(pm: PubsubMessage, parse: PeerParser)
    requires pm.topic != None && Wire.Decode(Wire.EMPTY, pm.data).err != None
    ensures NewMessage(Some(pm), parse) == Err(UnmarshalFailed(Wire.Decode(Wire.EMPTY, pm.data).err.value))
  {
  }

  /** A sender may add fields this version does not know: the receiver sees the same message, but
      for the raw bytes. */
  lemma UnknownFieldsTolerated(buff: Bytes, now: bv64, extra: UnknownFields.Fields, pm: PubsubMessage, parse: PeerParser)
    requires |buff| < Wire.MAX_LENGTH / 2 && UnknownFields.AllUnknown(extra)
    requires |CreateMessageBytes(buff, now)| + |UnknownFields.AllBytes(extra)| < Wire.INT_LIMIT
    requires pm.data == CreateMessageBytes(buff, now)
    ensures var more := pm.(data := pm.data + UnknownFields.AllBytes(extra));
            match NewMessage(Some(pm), parse)
            case Ok(m) => NewMessage(Some(more), parse) == Ok(m.(payload := more.data))
            case Err(e) => NewMessage(Some(more), parse) == Err(e)
  {
    hide Wire.DecodeFrom, Wire.Encode, UnknownFields.AllBytes, UnknownFields.AllUnknown;
    Laws.DecodeEncode(Wire.Message(CURRENT_VERSION, buff, now, [], []));
    UnknownFields.UnknownIgnored(Wire.EMPTY, pm.data, extra, []);
    assert pm.data + [] == pm.data;
    assert pm.data + UnknownFields.AllBytes(extra) + [] == pm.data + UnknownFields.AllBytes(extra);
  }

  /** A received message survives the trip through its pubsub form. */
  lemma ReceivedAgain(m: P2PMessage, parse: PeerParser)
    requires IsReceived(m, parse)
    ensures NewMessage(Some(ToPubsub(m)), parse) == Ok(m)
  {
    var pm: PubsubMessage :| NewMessage(Some(pm), parse) == Ok(m);
  }

  // ---------- lists ----------

  /** An encoder and its decoder. */
  datatype Codec<!T> = Codec(enc: T -> Option<Bytes>, dec: Bytes -> Option<T>)

  /** What is encoded at all decodes to itself. */
  ghost predicate InversePair<T(!new)>(c: Codec<T>) {
    forall x: T :: c.enc(x).Some? ==> c.dec(c.enc(x).value) == Some(x)
  }

  function NonNil<T>(list: seq<Option<T>>): seq<T> {
    if list == [] then []
    else if list[0] == None then NonNil(list[1..])
    else [list[0].value] + NonNil(list[1..])
  }

  /** The encodings of all messages, unless one of them cannot be encoded. */
  function EncodeAll(c: Codec<PubsubMessage>, list: seq<P2PMessage>): Option<seq<Bytes>> {
    if list == [] then Some([])
    else
      match c.enc(ToPubsub(list[0]))
      case None => None
      case Some(b) =>
        match EncodeAll(c, list[1..])
        case None => None
        case Some(bs) => Some([b] + bs)
  }

  /** The messages that unpack, unless one buffer is no pubsub message. */
  function DecodeAll(c: Codec<PubsubMessage>, parse: PeerParser, list: seq<Bytes>): Option<seq<P2PMessage>> {
    if list == [] then Some([])
    else
      match c.dec(list[0])
      case None => None
      case Some(pm) =>
        match DecodeAll(c, parse, list[1..])
        case None => None
        case Some(ms) => if NewMessage(Some(pm), parse).Ok? then Some([NewMessage(Some(pm), parse).value] + ms) else Some(ms)
  }

  lemma OneEncoded(c: Codec<PubsubMessage>, m: P2PMessage)
    ensures EncodeAll(c, [m]) == match c.enc(ToPubsub(m)) case None => None case Some(b) => Some([b])
  {
    assert [m][1..] == [] && EncodeAll(c, []) == Some([]);
    if c.enc(ToPubsub(m)).Some? {
      assert [c.enc(ToPubsub(m)).value] + [] == [c.enc(ToPubsub(m)).value];
    }
  }

  lemma OneDecoded(c: Codec<PubsubMessage>, parse: PeerParser, b: Bytes)
    ensures DecodeAll(c, parse, [b]) ==
            match c.dec(b)
            case None => None
            case Some(pm) => if NewMessage(Some(pm), parse).Ok? then Some([NewMessage(Some(pm), parse).value]) else Some([])
  {
    hide NewMessage;
    assert [b][1..] == [] && DecodeAll(c, parse, []) == Some([]);
    if c.dec(b).Some? && NewMessage(c.dec(b), parse).Ok? {
      var m := NewMessage(c.dec(b), parse).value;
      assert [m] + [] == [m];
    }
  }

  function SerializeSpec(pubsub: Codec<PubsubMessage>, batch: Codec<seq<Bytes>>, list: seq<Option<P2PMessage>>): Option<Bytes> {
    match EncodeAll(pubsub, NonNil(list))
    case None => None
    case Some(bs) => if bs == [] then Some([]) else batch.enc(bs)
  }

  function DeserializeSpec(pubsub: Codec<PubsubMessage>, batch: Codec<seq<Bytes>>, parse: PeerParser, b: Bytes): Option<seq<P2PMessage>> {
    match batch.dec(b)
    case None => None
    case Some(bs) => DecodeAll(pubsub, parse, bs)
  }

  lemma {:induction false} AllRoundTrip(c: Codec<PubsubMessage>, parse: PeerParser, list: seq<P2PMessage>)
    requires InversePair(c) && EncodeAll(c, list).Some?
    requires forall m :: m in list ==> IsReceived(m, parse)
    ensures DecodeAll(c, parse, EncodeAll(c, list).value) == Some(list)
    ensures EncodeAll(c, list).value == [] <==> list == []
    decreases |list|
  {
    if list != [] {
      hide NewMessage, IsReceived;
      var bs := EncodeAll(c, list).value;
      AllRoundTrip(c, parse, list[1..]);
      assert bs[1..] == EncodeAll(c, list[1..]).value;
      ReceivedAgain(list[0], parse);
      assert [list[0]] + list[1..] == list;
    }
  }

  lemma {:induction false} NonNilMembers<T>(list: seq<Option<T>>)
    ensures forall x :: x in NonNil(list) ==> Some(x) in list
    decreases |list|
  {
    if list != [] {
      NonNilMembers(list[1..]);
    }
  }

  /** Deserialize undoes Serialize: the list comes back in order, without its nil entries. */
  lemma {:induction false} DeserializeSerialize(pubsub: Codec<PubsubMessage>, batch: Codec<seq<Bytes>>, parse: PeerParser,
                             list: seq<Option<P2PMessage>>)
    requires InversePair(pubsub) && InversePair(batch) && batch.dec([]) == Some([])
    requires forall m :: Some(m) in list ==> IsReceived(m, parse)
    requires SerializeSpec(pubsub, batch, list).Some?
    ensures DeserializeSpec(pubsub, batch, parse, SerializeSpec(pubsub, batch, list).value) == Some(NonNil(list))
  {
    NonNilMembers(list);
    AllRoundTrip(pubsub, parse, NonNil(list));
  }

  lemma {:induction false} NonNilAppend<T>(list: seq<Option<T>>, m: Option<T>)
    ensures NonNil(list + [m]) == if m == None then NonNil(list) else NonNil(list) + [m.value]
    decreases |list|
  {
    if list == [] {
      assert list + [m] == [m] && [m][1..] == [];
    } else {
      NonNilAppend(list[1..], m);
      assert (list + [m])[1..] == list[1..] + [m];
    }
  }

  lemma {:induction false} EncodeAllAppend(c: Codec<PubsubMessage>, list: seq<P2PMessage>, rest: seq<P2PMessage>)
    ensures EncodeAll(c, list + rest) ==
            match EncodeAll(c, list)
            case None => None
            case Some(bs) => match EncodeAll(c, rest)
                             case None => None
                             case Some(cs) => Some(bs + cs)
    decreases |list|
  {
    if list == [] {
      assert list + rest == rest;
      if EncodeAll(c, rest).Some? {
        assert [] + EncodeAll(c, rest).value == EncodeAll(c, rest).value;
      }
    } else {
      EncodeAllAppend(c, list[1..], rest);
      assert (list + rest)[1..] == list[1..] + rest;
      if c.enc(ToPubsub(list[0])).Some? && EncodeAll(c, list[1..]).Some? && EncodeAll(c, rest).Some? {
        var b := [c.enc(ToPubsub(list[0])).value];
        assert b + (EncodeAll(c, list[1..]).value + EncodeAll(c, rest).value)
            == b + EncodeAll(c, list[1..]).value + EncodeAll(c, rest).value;
      }
    }
  }

  lemma {:induction false} DecodeAllAppend(c: Codec<PubsubMessage>, parse: PeerParser, list: seq<Bytes>, rest: seq<Bytes>)
    ensures DecodeAll(c, parse, list + rest) ==
            match DecodeAll(c, parse, list)
            case None => None
            case Some(ms) => match DecodeAll(c, parse, rest)
                             case None => None
                             case Some(ns) => Some(ms + ns)
    decreases |list|
  {
    hide NewMessage;
    if list == [] {
      assert list + rest == rest;
      if DecodeAll(c, parse, rest).Some? {
        assert [] + DecodeAll(c, parse, rest).value == DecodeAll(c, parse, rest).value;
      }
    } else {
      DecodeAllAppend(c, parse, list[1..], rest);
      assert (list + rest)[1..] == list[1..] + rest;
      var pm := c.dec(list[0]);
      if pm.Some? && DecodeAll(c, parse, list[1..]).Some? && DecodeAll(c, parse, rest).Some? {
        var m := NewMessage(pm, parse);
        var ms, ns := DecodeAll(c, parse, list[1..]).value, DecodeAll(c, parse, rest).value;
        if m.Ok? {
          assert [m.value] + (ms + ns) == [m.value] + ms + ns;
        }
      }
    }
  }

  /** The places of the list up to i that are not nil. */
  function Filled<T(==)>(list: seq<Option<T>>, i: nat): set<nat>
    requires i <= |list|
  {
    set k: nat | k < i && list[k] != None
  }

  /** The list without its nil entries: each other entry stands behind those before it. */
  lemma NonNilAt<T>(list: seq<Option<T>>, i: nat)
    requires i <= |list|
    ensures if i == |list| then |NonNil(list)| == |Filled(list, i)|
            else list[i] != None ==>
              |Filled(list, i)| < |NonNil(list)| && NonNil(list)[|Filled(list, i)|] == list[i].value
  {
    assert list == list[..i] + list[i..];
    NonNilConcat(list[..i], list[i..]);
    NonNilLength(list, i);
  }

  lemma {:induction false} NonNilLength<T>(list: seq<Option<T>>, i: nat)
    requires i <= |list|
    ensures |NonNil(list[..i])| == |Filled(list, i)|
    decreases i
  {
    hide NonNil, Filled;
    if i > 0 {
      NonNilLength(list, i - 1);
      assert list[..i] == list[..i - 1] + [list[i - 1]];
      NonNilAppend(list[..i - 1], list[i - 1]);
      MoreFilled(list, i);
    } else {
      NothingFilled(list);
    }
  }

  lemma NothingFilled<T>(list: seq<Option<T>>)
    ensures |NonNil(list[..0])| == |Filled(list, 0)|
  {
    assert Filled(list, 0) == {};
  }

  lemma MoreFilled<T>(list: seq<Option<T>>, i: nat)
    requires 0 < i <= |list|
    ensures |Filled(list, i)| == |Filled(list, i - 1)| + if list[i - 1] != None then 1 else 0
  {
    assert Filled(list, i) == Filled(list, i - 1) + if list[i - 1] != None then {i - 1} else {};
  }

  /** Serialize fails exactly when a message cannot be encoded, or the batch of them cannot; nothing but
      nil gives the empty buffer. */
  lemma SerializesIff(pubsub: Codec<PubsubMessage>, batch: Codec<seq<Bytes>>, list: seq<Option<P2PMessage>>)
    ensures SerializeSpec(pubsub, batch, list) != None <==>
            && (forall m :: m in NonNil(list) ==> pubsub.enc(ToPubsub(m)) != None)
            && (NonNil(list) == [] ||
                (EncodeAll(pubsub, NonNil(list)).Some? && batch.enc(EncodeAll(pubsub, NonNil(list)).value) != None))
    ensures NonNil(list) == [] ==> SerializeSpec(pubsub, batch, list) == Some([])
  {
    EncodesIff(pubsub, NonNil(list));
  }

  lemma {:induction false} EncodesIff(c: Codec<PubsubMessage>, list: seq<P2PMessage>)
    ensures EncodeAll(c, list) != None <==> forall m :: m in list ==> c.enc(ToPubsub(m)) != None
    ensures EncodeAll(c, list) != None ==> |EncodeAll(c, list).value| == |list|
    decreases |list|
  {
    if list != [] {
      EncodesIff(c, list[1..]);
      assert list == [list[0]] + list[1..];
    }
  }

  /** The messages of a list of buffers with one more among them. */
  function WithInserted(b: Result<P2PMessage, MessageError>, x: Option<seq<P2PMessage>>,
                        y: Option<seq<P2PMessage>>): Option<seq<P2PMessage>>
  {
    if x == None || y == None then None
    else if b.Ok? then Some(x.value + [b.value] + y.value)
    else Some(x.value + y.value)
  }

  /** What one buffer does among others: one that is no pubsub message makes Deserialize fail, one that
      does not unpack is passed over, and the message of any other stands in its place. */
  lemma DeserializeInserted(pubsub: Codec<PubsubMessage>, batch: Codec<seq<Bytes>>, parse: PeerParser,
                            before: seq<Bytes>, b: Bytes, after: seq<Bytes>, whole: Bytes, rest: Bytes)
    requires batch.dec(whole) == Some(before + [b] + after) && batch.dec(rest) == Some(before + after)
    ensures var r, s := DeserializeSpec(pubsub, batch, parse, whole), DeserializeSpec(pubsub, batch, parse, rest);
            var x, y := DecodeAll(pubsub, parse, before), DecodeAll(pubsub, parse, after);
            && s == WithInserted(Err(NilMessage), x, y)
            && match pubsub.dec(b)
               case None => r == None
               case Some(pm) =>
                 && r == WithInserted(NewMessage(Some(pm), parse), x, y)
                 && (NewMessage(Some(pm), parse).Err? ==> r == s)
  {
    hide NewMessage, DecodeAll;
    DecodeAllAppend(pubsub, parse, before + [b], after);
    DecodeAllAppend(pubsub, parse, before, [b]);
    DecodeAllAppend(pubsub, parse, before, after);
    OneDecoded(pubsub, parse, b);
    if pubsub.dec(b).Some? && NewMessage(pubsub.dec(b), parse).Err? && DecodeAll(pubsub, parse, before).Some? {
      assert DecodeAll(pubsub, parse, before).value + [] == DecodeAll(pubsub, parse, before).value;
    }
  }

  /** messageVerifier, without its signer. */
  class MessageVerifier {
    const pubsub: Codec<PubsubMessage>
    const batch: Codec<seq<Bytes>>
    const parse: PeerParser

    constructor (pubsub: Codec<PubsubMessage>, batch: Codec<seq<Bytes>>, parse: PeerParser)
      ensures this.pubsub == pubsub && this.batch == batch && this.parse == parse
    {
      this.pubsub, this.batch, this.parse := pubsub, batch, parse;
    }

    /** Serialize: nil entries are passed over, and the first message that cannot be encoded ends it. */
    method Serialize(messages: seq<Option<P2PMessage>>) returns (r: Result<Bytes, MessageError>)
      ensures match SerializeSpec(pubsub, batch, messages)
              case Some(b) => r == Ok(b)
              case None => r == Err(CodecFailed)
    {
      var pubsubMessages: seq<Bytes> := [];
      for i := 0 to |messages|
        invariant EncodeAll(pubsub, NonNil(messages[..i])) == Some(pubsubMessages)
      {
        assert messages[..i + 1] == messages[..i] + [messages[i]];
        NonNilAppend(messages[..i], messages[i]);
        if messages[i] == None {
          continue;
        }
        var m := messages[i].value;
        EncodeAllAppend(pubsub, NonNil(messages[..i]), [m]);
        OneEncoded(pubsub, m);
        var b := pubsub.enc(ToPubsub(m));
        if b == None {
          StaysUnencodable(pubsub, messages, i);
          return Err(CodecFailed);
        }
        pubsubMessages := pubsubMessages + [b.value];
      }
      assert messages[..|messages|] == messages;
      if pubsubMessages == [] {
        return Ok([]);
      }
      var bytes := batch.enc(pubsubMessages);
      r := if bytes == None then Err(CodecFailed) else Ok(bytes.value);
    }

    /** Deserialize: a buffer that is no pubsub message ends it, one that does not unpack is
        passed over. */
    method Deserialize(messagesBytes: Bytes) returns (r: Result<seq<P2PMessage>, MessageError>)
      ensures match DeserializeSpec(pubsub, batch, parse, messagesBytes)
              case Some(ms) => r == Ok(ms)
              case None => r == Err(CodecFailed)
    {
      hide NewMessage;
      var b := batch.dec(messagesBytes);
      if b == None {
        return Err(CodecFailed);
      }
      var all := b.value;
      var p2pMessages: seq<P2PMessage> := [];
      for i := 0 to |all|
        invariant DecodeAll(pubsub, parse, all[..i]) == Some(p2pMessages)
      {
        assert all[..i + 1] == all[..i] + [all[i]];
        DecodeAllAppend(pubsub, parse, all[..i], [all[i]]);
        OneDecoded(pubsub, parse, all[i]);
        var pm := pubsub.dec(all[i]);
        if pm == None {
          assert all == all[..i] + all[i..];
          DecodeAllAppend(pubsub, parse, all[..i], all[i..]);
          return Err(CodecFailed);
        }
        var m := NewMessage(Some(pm.value), parse);
        if m.Err? {
          assert p2pMessages + [] == p2pMessages;
          continue;
        }
        p2pMessages := p2pMessages + [m.value];
      }
      assert all[..|all|] == all;
      return Ok(p2pMessages);
    }
  }

  lemma StaysUnencodable(c: Codec<PubsubMessage>, list: seq<Option<P2PMessage>>, i: nat)
    requires i < |list| && list[i].Some? && c.enc(ToPubsub(list[i].value)) == None
    ensures EncodeAll(c, NonNil(list)) == None
  {
    assert list == list[..i] + list[i..];
    NonNilConcat(list[..i], list[i..]);
    EncodeAllAppend(c, NonNil(list[..i]), NonNil(list[i..]));
  }

  lemma {:induction false} NonNilConcat<T>(a: seq<Option<T>>, b: seq<Option<T>>)
    ensures NonNil(a + b) == NonNil(a) + NonNil(b)
    decreases |a|
  {
    if a == [] {
      assert a + b == b;
    } else {
      NonNilConcat(a[1..], b);
      assert (a + b)[1..] == a[1..] + b;
    }
  }
}
