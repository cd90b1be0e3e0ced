/** libp2p/outgoingChannelLoadBalancer.go: the registry of named send channels, two parallel slices
    and a map that must agree, updated in place. What flows through the channels is in module
    Forwarding. */
module LoadBalancer {
  import opened Wrappers

  const DEFAULT_SEND_CHANNEL := "default send channel"

  datatype ChannelError = CanNotBeReAdded | CanNotBeDeleted | DoesNotExist

  // ---------- names ----------

  /** The first index of name, or the length of the list. */
  function IndexOf(names: seq<string>, name: string): (i: nat)
    ensures i <= |names|
    ensures i < |names| ==> names[i] == name
    ensures forall j :: 0 <= j < i ==> names[j] != name
  {
    if names == [] || names[0] == name then 0 else 1 + IndexOf(names[1..], name)
  }

  /** The names of a registry: no duplicates, and the default first. */
  predicate GoodNames(names: seq<string>) {
    names != [] && names[0] == DEFAULT_SEND_CHANNEL && Distinct(names)
  }

  datatype Op = Add(name: string) | Remove(name: string)

  /** The names after an operation, which changes nothing when it reports an error. */
  function NamesAfter(names: seq<string>, op: Op): seq<string> {
    match op
    case Add(name) => if name in names || name == DEFAULT_SEND_CHANNEL then names else names + [name]
    case Remove(name) =>
      if name !in names || name == DEFAULT_SEND_CHANNEL then names else Without(names, IndexOf(names, name))
  }

  function NamesAfterAll(names: seq<string>, ops: seq<Op>): seq<string>
    decreases |ops|
  {
    if ops == [] then names else NamesAfterAll(NamesAfter(names, ops[0]), ops[1..])
  }

  lemma NamesStayGood(names: seq<string>, op: Op)
    requires GoodNames(names)
    ensures GoodNames(NamesAfter(names, op))
    ensures forall n :: n != op.name ==> (n in NamesAfter(names, op) <==> n in names)
    ensures op.name != DEFAULT_SEND_CHANNEL ==> (op.name in NamesAfter(names, op) <==> op.Add?)
  {
    if op.Remove? && op.name in names && op.name != DEFAULT_SEND_CHANNEL {
      var i := IndexOf(names, op.name);
      var after := Without(names, i);
      forall n | n != op.name
        ensures n in after <==> n in names
      {
        if n in names {
          var j :| 0 <= j < |names| && names[j] == n;
          assert after[if j < i then j else j - 1] == n;
        }
      }
      assert op.name !in after;
      assert after[0] == names[0];
    }
  }

  /** The last operation of the run that speaks of the name is an Add. */
  predicate LastIsAdd(ops: seq<Op>, name: string, before: bool)
    decreases |ops|
  {
    if ops == [] then before
    else LastIsAdd(ops[1..], name, if ops[0].name == name then ops[0].Add? else before)
  }

  /** After every run the names are good, and a name is registered exactly when the last operation
      on it was an Add. */
  lemma {:induction false} RunOfNames(names: seq<string>, ops: seq<Op>, name: string)
    requires GoodNames(names) && name != DEFAULT_SEND_CHANNEL
    ensures GoodNames(NamesAfterAll(names, ops))
    ensures name in NamesAfterAll(names, ops) <==> LastIsAdd(ops, name, name in names)
    decreases |ops|
  {
    if ops != [] {
      NamesStayGood(names, ops[0]);
      RunOfNames(NamesAfter(names, ops[0]), ops[1..], name);
    }
  }

  /** Removing one of several distinct entries. */
  lemma WithoutFacts<T>(s: seq<T>, i: nat)
    requires i < |s| && Distinct(s)
    ensures |Without(s, i)| == |s| - 1 && Distinct(Without(s, i))
    ensures forall j :: 0 <= j < i ==> Without(s, i)[j] == s[j]
    ensures forall j :: i <= j < |s| - 1 ==> Without(s, i)[j] == s[j + 1]
    ensures forall x :: x in Without(s, i) <==> x in s && x != s[i]
  {
    var t := Without(s, i);
    forall x | x in s && x != s[i]
      ensures x in t
    {
      var j :| 0 <= j < |s| && s[j] == x;
      assert t[if j < i then j else j - 1] == x;
    }
  }

  lemma WithoutIs<T>(s: seq<T>, i: nat)
    requires i < |s|
    ensures Without(s, i) == s[..i] + s[i + 1..]
  {
  }

  // ---------- the object ----------

  /** A Go channel, as far as the registry is concerned. */
  class Channel {
    var closed: bool

    constructor ()
      ensures !closed
    {
      closed := false;
    }

    method Close()
      requires !closed
      modifies this
      ensures closed
    {
      closed := true;
    }
  }

  class OutgoingChannelLoadBalancer {
    var chans: seq<Channel>
    var names: seq<string>
    var namesChans: map<string, Channel>

    /** The slices are parallel and name distinct open channels, and the map is their zip. */
    ghost predicate Valid()
      reads this, chans
    {
      && GoodNames(names)
      && |chans| == |names|
      && Distinct(chans)
      && (forall i :: 0 <= i < |chans| ==> !chans[i].closed)
      && (forall name :: name in namesChans <==> name in names)
      && (forall i :: 0 <= i < |names| ==> namesChans[names[i]] == chans[i])
    }

    constructor ()
      ensures Valid() && names == [DEFAULT_SEND_CHANNEL] && fresh(chans[0])
    {
      var ch := new Channel();
      names, chans, namesChans := [DEFAULT_SEND_CHANNEL], [ch], map[DEFAULT_SEND_CHANNEL := ch];
    }

    /** appendChannel, without the goroutine it starts */
    method AppendChannel(channel: string)
      requires Valid() && channel !in names
      modifies this
      ensures Valid() && names == old(names) + [channel]
      ensures |chans| == |old(chans)| + 1 && chans[..|old(chans)|] == old(chans) && fresh(chans[|old(chans)|])
      ensures namesChans == old(namesChans)[channel := chans[|old(chans)|]]
    {
      names := names + [channel];
      var ch := new Channel();
      chans := chans + [ch];
      namesChans := namesChans[channel := ch];
    }

    method AddChannel(channel: string) returns (err: Option<ChannelError>)
      requires Valid()
      modifies this
      ensures Valid() && names == NamesAfter(old(names), Add(channel))
      ensures err == if channel == DEFAULT_SEND_CHANNEL then Some(CanNotBeReAdded) else None
      ensures names == if channel in old(names) then old(names) else old(names) + [channel]
      ensures forall n :: n in old(namesChans) ==> n in namesChans && namesChans[n] == old(namesChans)[n]
      ensures |old(chans)| <= |chans| && chans[..|old(chans)|] == old(chans)
      ensures forall i :: |old(chans)| <= i < |chans| ==> fresh(chans[i])
    {
      if channel == DEFAULT_SEND_CHANNEL {
        return Some(CanNotBeReAdded);
      }
      for i := 0 to |names|
        invariant channel !in names[..i]
      {
        if names[i] == channel {
          return None;
        }
      }
      AppendChannel(channel);
      return None;
    }

    /** The search that RemoveChannel begins with. */
    method FindName(channel: string) returns (index: nat)
      ensures index == IndexOf(names, channel)
    {
      index := 0;
      while index < |names| && names[index] != channel
        invariant index <= |names| && IndexOf(names, channel) == index + IndexOf(names[index..], channel)
      {
        index := index + 1;
      }
    }

    method RemoveChannel(channel: string) returns (err: Option<ChannelError>)
      requires Valid()
      modifies this, chans
      ensures Valid() && names == NamesAfter(old(names), Remove(channel))
      ensures channel == DEFAULT_SEND_CHANNEL ==> err == Some(CanNotBeDeleted)
      ensures channel != DEFAULT_SEND_CHANNEL ==> (err == Some(DoesNotExist) <==> channel !in old(names))
      ensures err == None <==> channel in old(names) && channel != DEFAULT_SEND_CHANNEL
      ensures err != None ==> chans == old(chans)
      ensures err == None ==>
                var i := IndexOf(old(names), channel);
                && i < |old(chans)| && chans == Without(old(chans), i) && old(chans)[i].closed
                && names == old(names)[..i] + old(names)[i + 1..]
      ensures forall n :: n in old(namesChans) && (n != channel || err != None) ==>
                n in namesChans && namesChans[n] == old(namesChans)[n]
    {
      hide Without, Distinct, IndexOf;
      if channel == DEFAULT_SEND_CHANNEL {
        return Some(CanNotBeDeleted);
      }
      var index := FindName(channel);
      if index == |names| {
        assert channel !in names;
        return Some(DoesNotExist);
      }
      RemoveEntry(index);
      return None;
    }

    /** The entry of a name other than the default leaves the slices and the map, the others keep
        their order, and its channel is closed. */
    method RemoveEntry(index: nat)
      requires Valid() && 0 < index < |names|
      modifies this, chans[index]
      ensures Valid() && names == Without(old(names), index)
      ensures chans == Without(old(chans), index) && old(chans)[index].closed
      ensures namesChans == old(namesChans) - {old(names)[index]}
      ensures names == old(names)[..index] + old(names)[index + 1..]
    {
      WithoutIs(names, index);
      hide Without;
      WithoutFacts(names, index);
      WithoutFacts(chans, index);
      var channel := names[index];
      var sendableChan := chans[index];
      chans := Without(chans, index);
      names := Without(names, index);
      sendableChan.Close();
      namesChans := namesChans - {channel};
    }

    /** GetChannelOrDefault: the map gives what a linear search of the names would, the default
        channel for unknown names, and never a closed channel. */
    method GetChannelOrDefault(channel: string) returns (ch: Channel)
      requires Valid()
      ensures var i := IndexOf(names, channel);
              ch == chans[if i < |names| then i else 0]
      ensures ch == if channel in namesChans then namesChans[channel] else chans[0]
      ensures !ch.closed
    {
      if channel in namesChans {
        return namesChans[channel];
      }
      return chans[0];
    }
  }
}
