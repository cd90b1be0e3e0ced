/** Registration of message processors: libp2p/topicProcessors.go and the three methods of
    libp2p/netMessenger.go on it. Pubsub is the set of topics with a validator; it refuses a second
    validator for a topic and the removal of a missing one. */
module TopicRegistration {
  import opened Wrappers

  /** p2p.MessageProcessor; a nil one is None. */
  type Handler = nat

  datatype RegistrationError =
    | NilValidator
    | AlreadyDefined
    | DoesNotExist
    | DuplicateValidator
    | NoValidator

  /** A topic may have no entry, a nil entry (None), or an entry with its handlers. */
  datatype Registry = Registry(processors: map<string, Option<map<string, Handler>>>, validators: set<string>)

  function Entry(r: Registry, topic: string): Option<map<string, Handler>> {
    if topic in r.processors then r.processors[topic] else None
  }

  function WithEntry(r: Registry, topic: string, entry: Option<map<string, Handler>>): Registry {
    r.(processors := r.processors[topic := entry])
  }

  /** RegisterMessageProcessor */
  function Register(r: Registry, topic: string, id: string, handler: Option<Handler>): (Registry, Option<RegistrationError>) {
    if handler == None then (r, Some(NilValidator))
    else
      var entry := Entry(r, topic);
      if entry == None && topic in r.validators then
        (r.(processors := r.processors[topic := Some(map[])]), Some(DuplicateValidator))
      else
        var procs := if entry == None then map[] else entry.value;
        var r' := Registry(r.processors[topic := Some(procs)], r.validators + if entry == None then {topic} else {});
        if id in procs then (r', Some(AlreadyDefined))
        else (r'.(processors := r'.processors[topic := Some(procs[id := handler.value])]), None)
  }

  /** UnregisterMessageProcessor: the last handler leaves a nil entry behind. */
  function Unregister(r: Registry, topic: string, id: string): (Registry, Option<RegistrationError>) {
    var entry := Entry(r, topic);
    if entry == None then (r, None)
    else if id !in entry.value then (r, Some(DoesNotExist))
    else
      var procs := entry.value - {id};
      if procs != map[] then (r.(processors := r.processors[topic := Some(procs)]), None)
      else
        var r' := r.(processors := r.processors[topic := None]);
        if topic !in r.validators then (r', Some(NoValidator))
        else (r'.(validators := r.validators - {topic}), None)
  }

  /** UnregisterAllMessageProcessors, when the iteration visits the topics in this order. */
  function UnregisterAll(r: Registry, order: seq<string>): (Registry, Option<RegistrationError>)
    decreases |order|
  {
    if order == [] then (r, None)
    else if order[0] !in r.validators then (r, Some(NoValidator))
    else UnregisterAll(Registry(r.processors - {order[0]}, r.validators - {order[0]}), order[1..])
  }

  /** order can be what an iteration over the entries visits: different topics, and all of them if
      it is not cut short. */
  predicate IsIteration(r: Registry, order: seq<string>) {
    && Distinct(order)
    && (forall t :: t in order ==> t in r.processors)
    && (UnregisterAll(r, order).1 == None ==> forall t :: t in r.processors ==> t in order)
  }

  // ---------- the invariant ----------

  /** The validators are exactly the topics with a non-nil entry, and each of these has a handler. */
  ghost predicate Agrees(r: Registry) {
    && (forall t :: t in r.validators <==> t in r.processors && r.processors[t] != None)
    && (forall t :: t in r.processors && r.processors[t] != None ==> r.processors[t].value != map[])
  }

  predicate HasNilEntry(r: Registry) {
    exists t :: t in r.processors && r.processors[t] == None
  }

  /** Registering keeps the agreement, and pubsub never refuses. */
  lemma RegisterKeeps(r: Registry, topic: string, id: string, handler: Option<Handler>)
    requires Agrees(r)
    ensures Agrees(Register(r, topic, id, handler).0)
    ensures Register(r, topic, id, handler).1 != Some(DuplicateValidator)
    ensures Register(r, topic, id, handler).1 == Some(AlreadyDefined) ==> Register(r, topic, id, handler).0 == r
  {
    var entry := Entry(r, topic);
    if handler != None {
      var procs := if entry == None then map[] else entry.value;
      var r', err := Register(r, topic, id, handler).0, Register(r, topic, id, handler).1;
      if id in procs {
        assert r'.processors == r.processors;
        assert r'.validators == r.validators;
      } else {
        assert id in r'.processors[topic].value;
      }
    }
  }

  /** Unregistering keeps the agreement, and pubsub never refuses. */
  lemma UnregisterKeeps(r: Registry, topic: string, id: string)
    requires Agrees(r)
    ensures Agrees(Unregister(r, topic, id).0)
    ensures Unregister(r, topic, id).1 != Some(NoValidator)
  {
  }

  /** Unregistering all keeps the agreement even when it stops on an error; it succeeds exactly when
      no nil entry is left, and then nothing is. */
  lemma {:induction false} UnregisterAllKeeps(r: Registry, order: seq<string>)
    requires Agrees(r) && IsIteration(r, order)
    ensures var (r', err) := UnregisterAll(r, order);
            && Agrees(r')
            && (err == None <==> !HasNilEntry(r))
            && (err == None ==> r' == Registry(map[], {}))
            && (forall t :: t in r.processors && r.processors[t] == None ==> t in r'.processors && r'.processors[t] == None)
    decreases |order|
  {
    if order == [] {
      assert r.processors == map[] && r.validators == {};
    } else if order[0] in r.validators {
      var t := order[0];
      var next := Registry(r.processors - {t}, r.validators - {t});
      IterationTail(r, order);
      UnregisterAllKeeps(next, order[1..]);
      if HasNilEntry(r) {
        var u :| u in r.processors && r.processors[u] == None;
        assert u in next.processors && next.processors[u] == None;
      }
    } else {
      assert r.processors[order[0]] == None;
    }
  }

  lemma IterationTail(r: Registry, order: seq<string>)
    requires order != [] && order[0] in r.validators && IsIteration(r, order)
    ensures IsIteration(Registry(r.processors - {order[0]}, r.validators - {order[0]}), order[1..])
  {
    forall t | t in order[1..]
      ensures t in r.processors && t != order[0]
    {
      var i :| 0 <= i < |order[1..]| && order[1..][i] == t;
      assert order[i + 1] == t;
    }
  }

  // ---------- who handles what ----------

  /** The handler that gets the messages of a topic under an identifier. */
  function HandlerOf(r: Registry, topic: string, id: string): Option<Handler> {
    if Entry(r, topic) != None && id in Entry(r, topic).value then Some(Entry(r, topic).value[id]) else None
  }

  /** Registering adds exactly the one handler, and is refused exactly for a nil handler and for an
      identifier that has one on this topic. */
  lemma RegisterAdds(r: Registry, topic: string, id: string, handler: Option<Handler>)
    requires Agrees(r)
    ensures var (r', err) := Register(r, topic, id, handler);
            && (err == Some(NilValidator) <==> handler == None)
            && (err == Some(AlreadyDefined) <==> handler != None && HandlerOf(r, topic, id) != None)
            && (err == None <==> handler != None && HandlerOf(r, topic, id) == None)
            && forall t, i :: HandlerOf(r', t, i) ==
                 if err == None && t == topic && i == id then handler else HandlerOf(r, t, i)
  {
  }

  /** Unregistering takes away exactly the one handler, however many the topic has, and is refused
      exactly when the topic has handlers but none under this identifier. */
  lemma UnregisterRemoves(r: Registry, topic: string, id: string)
    requires Agrees(r)
    ensures var (r', err) := Unregister(r, topic, id);
            && (err == Some(DoesNotExist) <==> Entry(r, topic) != None && HandlerOf(r, topic, id) == None)
            && (err == None <==> Entry(r, topic) == None || HandlerOf(r, topic, id) != None)
            && forall t, i :: HandlerOf(r', t, i) == if t == topic && i == id then None else HandlerOf(r, t, i)
  {
    var entry := Entry(r, topic);
    if entry != None && id in entry.value {
      forall i
        ensures i in entry.value - {id} <==> i in entry.value && i != id
      {
      }
      var r' := Unregister(r, topic, id).0;
      forall t, i
        ensures HandlerOf(r', t, i) == if t == topic && i == id then None else HandlerOf(r, t, i)
      {
        if t == topic && i != id && i in entry.value {
          assert i in entry.value - {id};
        }
      }
    }
  }

  /** Unregistering all takes the handlers of the topics visited before the first one without a
      validator, and leaves all others. */
  lemma {:induction false} UnregisterAllRemoves(r: Registry, order: seq<string>) returns (k: nat)
    requires Distinct(order)
    ensures k <= |order|
    ensures var (r', err) := UnregisterAll(r, order);
            && (err == None <==> k == |order|)
            && (k < |order| ==> order[k] !in r.validators && err == Some(NoValidator))
            && (forall i :: 0 <= i < k ==> order[i] in r.validators)
            && (forall t, i :: HandlerOf(r', t, i) == if t in order[..k] then None else HandlerOf(r, t, i))
    decreases |order|
  {
    if order == [] || order[0] !in r.validators {
      k := 0;
    } else {
      var next := Registry(r.processors - {order[0]}, r.validators - {order[0]});
      k := UnregisterAllRemoves(next, order[1..]);
      k := k + 1;
      assert order[..k] == [order[0]] + order[1..][..k - 1];
      assert forall i :: 0 < i < |order| ==> order[i] == order[1..][i - 1];
    }
  }

  // ---------- runs ----------

  datatype Op =
    | DoRegister(topic: string, id: string, handler: Option<Handler>)
    | DoUnregister(topic: string, id: string)
    | DoUnregisterAll(order: seq<string>)

  function Do(r: Registry, op: Op): (Registry, Option<RegistrationError>) {
    match op
    case DoRegister(topic, id, handler) => Register(r, topic, id, handler)
    case DoUnregister(topic, id) => Unregister(r, topic, id)
    case DoUnregisterAll(order) => UnregisterAll(r, order)
  }

  predicate IsRun(r: Registry, ops: seq<Op>)
    decreases |ops|
  {
    ops == [] || ((ops[0].DoUnregisterAll? ==> IsIteration(r, ops[0].order)) && IsRun(Do(r, ops[0]).0, ops[1..]))
  }

  function After(r: Registry, ops: seq<Op>): Registry
    decreases |ops|
  {
    if ops == [] then r else After(Do(r, ops[0]).0, ops[1..])
  }

  lemma StepKeeps(r: Registry, op: Op)
    requires Agrees(r) && (op.DoUnregisterAll? ==> IsIteration(r, op.order))
    ensures Agrees(Do(r, op).0)
  {
    match op
    case DoRegister(topic, id, handler) => RegisterKeeps(r, topic, id, handler);
    case DoUnregister(topic, id) => UnregisterKeeps(r, topic, id);
    case DoUnregisterAll(order) => UnregisterAllKeeps(r, order);
  }

  /** In every run the validators and the processors agree. */
  lemma {:induction false} RunAgrees(r: Registry, ops: seq<Op>)
    requires Agrees(r) && IsRun(r, ops)
    ensures Agrees(After(r, ops))
    decreases |ops|
  {
    if ops != [] {
      StepKeeps(r, ops[0]);
      RunAgrees(Do(r, ops[0]).0, ops[1..]);
    }
  }

  lemma RunFromNothing(ops: seq<Op>)
    requires IsRun(Registry(map[], {}), ops)
    ensures Agrees(After(Registry(map[], {}), ops))
  {
    RunAgrees(Registry(map[], {}), ops);
  }

  predicate RegistersOn(op: Op, topic: string) {
    op.DoRegister? && op.topic == topic && op.handler != None
  }

  lemma NilStays(r: Registry, op: Op, topic: string)
    requires Agrees(r) && topic in r.processors && r.processors[topic] == None
    requires (op.DoUnregisterAll? ==> IsIteration(r, op.order)) && !RegistersOn(op, topic)
    ensures topic in Do(r, op).0.processors && Do(r, op).0.processors[topic] == None
  {
    if op.DoUnregisterAll? {
      UnregisterAllKeeps(r, op.order);
    }
  }

  /** After the last handler of a topic is unregistered, every unregister-all fails until something
      is registered on that topic again, whatever happens in between. */
  lemma {:induction false} UnregisterAllBlocked(r: Registry, topic: string, ops: seq<Op>, order: seq<string>)
    requires Agrees(r) && topic in r.processors && r.processors[topic] == None
    requires IsRun(r, ops) && forall op :: op in ops ==> !RegistersOn(op, topic)
    requires IsIteration(After(r, ops), order)
    ensures UnregisterAll(After(r, ops), order).1 == Some(NoValidator)
    decreases |ops|
  {
    if ops == [] {
      UnregisterAllKeeps(r, order);
      OnlyNoValidator(r, order);
    } else {
      NilStays(r, ops[0], topic);
      StepKeeps(r, ops[0]);
      UnregisterAllBlocked(Do(r, ops[0]).0, topic, ops[1..], order);
    }
  }

  lemma {:induction false} OnlyNoValidator(r: Registry, order: seq<string>)
    ensures UnregisterAll(r, order).1 == None || UnregisterAll(r, order).1 == Some(NoValidator)
    decreases |order|
  {
    if order != [] && order[0] in r.validators {
      OnlyNoValidator(Registry(r.processors - {order[0]}, r.validators - {order[0]}), order[1..]);
    }
  }

  /** Unregistering the only handler of a topic succeeds, and leaves the nil entry. */
  lemma LastUnregisterLeavesNil(r: Registry, topic: string, id: string, h: Handler)
    requires Agrees(r) && Entry(r, topic) == Some(map[id := h])
    ensures var (r', err) := Unregister(r, topic, id);
            && err == None
            && topic in r'.processors && r'.processors[topic] == None
            && (forall t :: t != topic ==> Entry(r', t) == Entry(r, t))
            && r'.validators == r.validators - {topic}
  {
    assert map[id := h] - {id} == map[];
  }

  /** A nil entry appears only there: some topic gets one by an operation exactly when it is the
      unregistration of its only handler. */
  lemma NilAppearsIff(r: Registry, op: Op, topic: string)
    requires Agrees(r) && (op.DoUnregisterAll? ==> IsIteration(r, op.order))
    requires !(topic in r.processors && r.processors[topic] == None)
    ensures topic in Do(r, op).0.processors && Do(r, op).0.processors[topic] == None <==>
            op.DoUnregister? && op.topic == topic && exists h :: Entry(r, topic) == Some(map[op.id := h])
  {
    match op
    case DoRegister(t, id, handler) =>
    case DoUnregister(t, id) =>
      if t == topic {
        OnlyHandlerIff(r, topic, id);
      }
    case DoUnregisterAll(order) =>
      NoNewEntries(r, order);
  }

  lemma OnlyHandlerIff(r: Registry, topic: string, id: string)
    requires Agrees(r)
    ensures Entry(r, topic) != None && id in Entry(r, topic).value && Entry(r, topic).value - {id} == map[] <==>
            exists h :: Entry(r, topic) == Some(map[id := h])
  {
    if Entry(r, topic) != None {
      var procs := Entry(r, topic).value;
      if id in procs && procs - {id} == map[] {
        forall k | k in procs
          ensures k == id
        {
          assert k == id || k in procs - {id};
        }
        assert procs == map[id := procs[id]];
      }
      forall h | procs == map[id := h]
        ensures procs - {id} == map[]
      {
        assert map[id := h] - {id} == map[];
      }
    }
  }

  lemma {:induction false} NoNewEntries(r: Registry, order: seq<string>)
    ensures forall t :: t in UnregisterAll(r, order).0.processors ==>
              t in r.processors && UnregisterAll(r, order).0.processors[t] == r.processors[t]
    decreases |order|
  {
    if order != [] && order[0] in r.validators {
      NoNewEntries(Registry(r.processors - {order[0]}, r.validators - {order[0]}), order[1..]);
    }
  }

  /** So after the last handler of a topic is unregistered, every unregister-all fails until
      something is registered on that topic again, whatever happens in between. */
  lemma LastUnregisterBlocks(r: Registry, topic: string, id: string, h: Handler, ops: seq<Op>, order: seq<string>)
    requires Agrees(r) && Entry(r, topic) == Some(map[id := h])
    requires var r' := Unregister(r, topic, id).0;
             && IsRun(r', ops) && (forall op :: op in ops ==> !RegistersOn(op, topic))
             && IsIteration(After(r', ops), order)
    ensures UnregisterAll(After(Unregister(r, topic, id).0, ops), order).1 == Some(NoValidator)
  {
    LastUnregisterLeavesNil(r, topic, id, h);
    UnregisterKeeps(r, topic, id);
    UnregisterAllBlocked(Unregister(r, topic, id).0, topic, ops, order);
  }

  /** One handler comes and goes. */
  const COME_AND_GO := [DoRegister("topic", "id", Some(0)), DoUnregister("topic", "id")]

  /** Such a registry is reached from the start: nothing is registered any more, and still every
      unregister-all fails, on the one entry there is. */
  lemma UnregisterAllCanFail()
    ensures IsRun(Registry(map[], {}), COME_AND_GO)
    ensures After(Registry(map[], {}), COME_AND_GO) == Registry(map["topic" := None], {})
    ensures IsIteration(After(Registry(map[], {}), COME_AND_GO), ["topic"])
    ensures forall order :: IsIteration(After(Registry(map[], {}), COME_AND_GO), order) ==>
              UnregisterAll(After(Registry(map[], {}), COME_AND_GO), order).1 == Some(NoValidator)
  {
    var start, one := Registry(map[], {}), Registry(map["topic" := Some(map["id" := 0])], {"topic"});
    var none: map<string, Handler> := map[];
    assert none["id" := 0] == map["id" := 0];
    assert start.processors["topic" := Some(none)]["topic" := Some(map["id" := 0])] == one.processors;
    assert start.validators + {"topic"} == one.validators;
    assert Register(start, "topic", "id", Some(0)) == (one, None);
    assert Agrees(one);
    LastUnregisterLeavesNil(one, "topic", "id", 0);
    var end := Unregister(one, "topic", "id").0;
    assert end.processors == map["topic" := None] && end.validators == {};
    ComeAndGo(start, one, end);
    forall order | IsIteration(end, order)
      ensures UnregisterAll(end, order).1 == Some(NoValidator)
    {
      LastUnregisterBlocks(one, "topic", "id", 0, [], order);
    }
  }

  lemma ComeAndGo(start: Registry, one: Registry, end: Registry)
    requires Do(start, COME_AND_GO[0]).0 == one && Do(one, COME_AND_GO[1]).0 == end
    ensures IsRun(start, COME_AND_GO) && After(start, COME_AND_GO) == end
  {
    assert COME_AND_GO[1..] == [COME_AND_GO[1]] && [COME_AND_GO[1]][1..] == [];
    assert IsRun(end, []) && After(end, []) == end;
    assert IsRun(one, [COME_AND_GO[1]]) && After(one, [COME_AND_GO[1]]) == end;
  }

  // ---------- the objects ----------

  class PubSub {
    var validators: set<string>

    constructor ()
      ensures validators == {}
    {
      validators := {};
    }

    method RegisterTopicValidator(topic: string) returns (err: Option<RegistrationError>)
      modifies this
      ensures err == (if topic in old(validators) then Some(DuplicateValidator) else None)
      ensures validators == old(validators) + {topic}
    {
      err := if topic in validators then Some(DuplicateValidator) else None;
      validators := validators + {topic};
    }

    method UnregisterTopicValidator(topic: string) returns (err: Option<RegistrationError>)
      modifies this
      ensures err == (if topic in old(validators) then None else Some(NoValidator))
      ensures validators == old(validators) - {topic}
    {
      err := if topic in validators then None else Some(NoValidator);
      validators := validators - {topic};
    }
  }

  class TopicProcessors {
    var processors: map<string, Handler>

    constructor ()
      ensures processors == map[]
    {
      processors := map[];
    }

    method AddTopicProcessor(identifier: string, processor: Handler) returns (err: Option<RegistrationError>)
      modifies this
      ensures err == (if identifier in old(processors) then Some(AlreadyDefined) else None)
      ensures processors == if err == None then old(processors)[identifier := processor] else old(processors)
    {
      if identifier in processors {
        return Some(AlreadyDefined);
      }
      processors := processors[identifier := processor];
      return None;
    }

    method RemoveTopicProcessor(identifier: string) returns (err: Option<RegistrationError>)
      modifies this
      ensures err == (if identifier in old(processors) then None else Some(DoesNotExist))
      ensures processors == old(processors) - {identifier}
    {
      if identifier !in processors {
        return Some(DoesNotExist);
      }
      processors := processors - {identifier};
      return None;
    }

    /** getList: every identifier once, in any order, beside its handler. */
    method GetList() returns (identifiers: seq<string>, list: seq<Handler>)
      ensures |identifiers| == |list| && Distinct(identifiers)
      ensures forall id :: id in identifiers <==> id in processors
      ensures forall i :: 0 <= i < |list| ==> identifiers[i] in processors && list[i] == processors[identifiers[i]]
    {
      identifiers, list := [], [];
      var rest := processors.Keys;
      while rest != {}
        invariant rest <= processors.Keys && |identifiers| == |list| && Distinct(identifiers)
        invariant forall id :: id in identifiers <==> id in processors && id !in rest
        invariant forall i :: 0 <= i < |list| ==> identifiers[i] in processors && list[i] == processors[identifiers[i]]
        decreases rest
      {
        var id :| id in rest;
        assert id !in identifiers;
        identifiers, list, rest := identifiers + [id], list + [processors[id]], rest - {id};
      }
    }
  }

  class NetworkMessenger {
    var processors: map<string, TopicProcessors?>
    const pb: PubSub

    /** Different topics have different processor objects. */
    ghost predicate Valid()
      reads this
    {
      forall t, u :: t in processors && u in processors && t != u && processors[t] != null ==> processors[t] != processors[u]
    }

    ghost function Value(): Registry
      reads this, pb, processors.Values
    {
      Registry(map t | t in processors :: if processors[t] == null then None else Some(processors[t].processors),
               pb.validators)
    }

    constructor ()
      ensures Valid() && Value() == Registry(map[], {})
    {
      processors := map[];
      pb := new PubSub();
    }

    method RegisterMessageProcessor(topic: string, identifier: string, handler: Option<Handler>)
      returns (err: Option<RegistrationError>)
      requires Valid()
      modifies this, pb, processors.Values
      ensures Valid() && (Value(), err) == Register(old(Value()), topic, identifier, handler)
    {
      if handler == None {
        return Some(NilValidator);
      }
      var topicProcs := if topic in processors then processors[topic] else null;
      if topicProcs == null {
        topicProcs := new TopicProcessors();
        err := Install(topic, topicProcs);
        if err != None {
          assert Value().validators == old(Value()).validators;
          return;
        }
      } else {
        assert Value() == WithEntry(old(Value()), topic, Some(topicProcs.processors));
        assert Value().validators == Value().validators + {};
      }
      err := AddTo(topic, topicProcs, identifier, handler.value);
    }

    /** The new entry of a topic, and its validator. */
    method Install(topic: string, topicProcs: TopicProcessors) returns (err: Option<RegistrationError>)
      requires Valid() && (topic in processors ==> processors[topic] == null)
      requires topicProcs.processors == map[] && topicProcs !in processors.Values
      modifies this, pb
      ensures Valid() && processors == old(processors)[topic := topicProcs]
      ensures Value().processors == old(Value()).processors[topic := Some(map[])]
      ensures Value().validators == old(Value()).validators + {topic}
      ensures err == if topic in old(Value()).validators then Some(DuplicateValidator) else None
      ensures topicProcs.processors == map[]
    {
      ghost var was := Value();
      processors := processors[topic := topicProcs];
      err := pb.RegisterTopicValidator(topic);
      assert Value().processors == was.processors[topic := Some(map[])];
    }

    /** The last step of a registration. */
    method AddTo(topic: string, topicProcs: TopicProcessors, identifier: string, handler: Handler)
      returns (err: Option<RegistrationError>)
      requires Valid() && topic in processors && processors[topic] == topicProcs
      modifies topicProcs
      ensures Valid() && processors == old(processors)
      ensures err == if identifier in old(topicProcs.processors) then Some(AlreadyDefined) else None
      ensures Value() == if err != None then old(Value())
                         else WithEntry(old(Value()), topic, Some(old(topicProcs.processors)[identifier := handler]))
    {
      ghost var was := Value();
      err := topicProcs.AddTopicProcessor(identifier, handler);
      assert Value().processors == was.processors[topic := Some(topicProcs.processors)];
      if err != None {
        assert was.processors[topic] == Some(topicProcs.processors);
        assert Value().processors == was.processors;
      }
    }

    method UnregisterMessageProcessor(topic: string, identifier: string) returns (err: Option<RegistrationError>)
      requires Valid()
      modifies this, pb, processors.Values
      ensures Valid() && (Value(), err) == Unregister(old(Value()), topic, identifier)
    {
      var topicProcs := if topic in processors then processors[topic] else null;
      if topicProcs == null {
        return None;
      }
      err := RemoveFrom(topic, topicProcs, identifier);
      if err != None {
        return;
      }
      var identifiers, _ := topicProcs.GetList();
      if |identifiers| == 0 {
        assert topicProcs.processors == map[];
        ghost var mid := Value();
        err := Uninstall(topic);
        assert mid.processors[topic := None] == old(Value()).processors[topic := None];
        assert err != None ==> Value().validators == old(Value()).validators;
        return;
      }
      assert identifiers[0] in topicProcs.processors;
    }

    method RemoveFrom(topic: string, topicProcs: TopicProcessors, identifier: string) returns (err: Option<RegistrationError>)
      requires Valid() && topic in processors && processors[topic] == topicProcs
      modifies topicProcs
      ensures Valid() && processors == old(processors)
      ensures topicProcs.processors == old(topicProcs.processors) - {identifier}
      ensures err == if identifier in old(topicProcs.processors) then None else Some(DoesNotExist)
      ensures Value() == if err != None then old(Value())
                         else WithEntry(old(Value()), topic, Some(topicProcs.processors))
    {
      ghost var was := Value();
      err := topicProcs.RemoveTopicProcessor(identifier);
      assert Value().processors == was.processors[topic := Some(topicProcs.processors)];
      if err != None {
        assert topicProcs.processors == old(topicProcs.processors);
        assert Value().processors == was.processors;
      }
    }

    /** The nil entry of a topic, and the end of its validator. */
    method Uninstall(topic: string) returns (err: Option<RegistrationError>)
      requires Valid() && topic in processors
      modifies this, pb
      ensures Valid() && Value().processors == old(Value()).processors[topic := None]
      ensures Value().validators == old(Value()).validators - {topic}
      ensures err == if topic in old(Value()).validators then None else Some(NoValidator)
    {
      ghost var was := Value();
      processors := processors[topic := null];
      assert Value().processors == was.processors[topic := None];
      err := pb.UnregisterTopicValidator(topic);
      assert Value().processors == was.processors[topic := None];
    }

    /** The iteration over the map visits its keys in any order. */
    method UnregisterAllMessageProcessors() returns (err: Option<RegistrationError>)
      requires Valid()
      modifies this, pb
      ensures Valid()
      ensures exists order :: IsIteration(old(Value()), order) && (Value(), err) == UnregisterAll(old(Value()), order)
    {
      ghost var was := Value();
      ghost var order: seq<string> := [];
      var rest := processors.Keys;
      while rest != {}
        invariant Valid() && processors.Keys == rest
        invariant Distinct(order) && (forall t :: t in order ==> t !in rest)
        invariant forall t :: t in was.processors <==> t in order || t in rest
        invariant forall t :: t in rest ==> processors[t] == old(processors)[t]
        invariant forall t :: t in old(processors) && old(processors)[t] != null ==>
                    old(processors)[t].processors == old(processors[t].processors)
        invariant UnregisterAll(was, order) == (Value(), None)
        decreases rest
      {
        var topic :| topic in rest;
        AppendVisit(was, order, topic);
        order := order + [topic];
        err := RemoveEntry(topic);
        if err != None {
          return;
        }
        rest := rest - {topic};
      }
      return None;
    }

    /** One round of the iteration. */
    method RemoveEntry(topic: string) returns (err: Option<RegistrationError>)
      requires Valid() && topic in processors
      modifies this, pb
      ensures Valid() && (Value(), err) == UnregisterAll(old(Value()), [topic])
      ensures processors == if err != None then old(processors) else old(processors) - {topic}
    {
      ghost var was := Value();
      err := pb.UnregisterTopicValidator(topic);
      if err != None {
        assert Value() == was;
        return;
      }
      processors := processors - {topic};
      assert Value() == Registry(was.processors - {topic}, was.validators - {topic});
      assert [topic][1..] == [];
    }
  }

  lemma {:induction false} AppendVisit(r: Registry, order: seq<string>, topic: string)
    requires UnregisterAll(r, order).1 == None
    ensures UnregisterAll(r, order + [topic]) == UnregisterAll(UnregisterAll(r, order).0, [topic])
    decreases |order|
  {
    if order == [] {
      assert order + [topic] == [topic];
    } else {
      assert (order + [topic])[1..] == order[1..] + [topic];
      AppendVisit(Registry(r.processors - {order[0]}, r.validators - {order[0]}), order[1..], topic);
    }
  }
}
