/** What flows through the load balancer of libp2p/outgoingChannelLoadBalancer.go: a state machine
    of senders, one forwarder goroutine per channel, and the collector, over unbuffered channels.
    A step is one rendezvous or one call under the lock. */
module Forwarding {
  import opened Wrappers
  import LoadBalancer

  /** The payload of a SendableData. A nil pointer is None. */
  type Item = string

  /** A forwarder waits at its select, holds what it received until the collector takes it, or has
      returned. */
  datatype Forwarder = Waiting | Holding(item: Option<Item>) | Returned

  /** A channel object with its forwarder. Senders offer items only; accepted is what the forwarder
      has received from them, in order. */
  datatype Line = Line(open: bool, forwarder: Forwarder, accepted: seq<Item>)

  /** names and chans are the two slices; lines holds every channel object ever made, the removed
      ones included; collected is what the collector has taken from the main channel. */
  datatype System = System(
    names: seq<string>, chans: seq<nat>, lines: seq<Line>, collected: seq<(nat, Option<Item>)>, closed: bool)

  datatype Step =
    | Send(ch: nat, item: Item)      // a sender hands item to the forwarder of ch
    | ReceiveNil(ch: nat)            // the forwarder of a closed channel reads the zero value
    | Collect(ch: nat)               // the forwarder of ch hands what it holds to the collector
    | Return(ch: nat)                // the forwarder of ch sees the cancelled context
    | AddChannel(name: string)
    | RemoveChannel(name: string)
    | Close

  function Initial(): System {
    System([LoadBalancer.DEFAULT_SEND_CHANNEL], [0], [Line(true, Waiting, [])], [], false)
  }

  predicate Enabled(s: System, step: Step) {
    match step
    case Send(ch, _) => ch < |s.lines| && s.lines[ch].open && s.lines[ch].forwarder == Waiting
    case ReceiveNil(ch) => ch < |s.lines| && !s.lines[ch].open && s.lines[ch].forwarder == Waiting
    case Collect(ch) => ch < |s.lines| && s.lines[ch].forwarder.Holding?
    case Return(ch) => ch < |s.lines| && s.closed && s.lines[ch].forwarder == Waiting
    case _ => |s.names| == |s.chans|
  }

  function SetLine(s: System, ch: nat, line: Line): System
    requires ch < |s.lines|
  {
    s.(lines := s.lines[ch := line])
  }

  function Do(s: System, step: Step): System
    requires Enabled(s, step)
  {
    match step
    case Send(ch, item) =>
      SetLine(s, ch, s.lines[ch].(forwarder := Holding(Some(item)), accepted := s.lines[ch].accepted + [item]))
    case ReceiveNil(ch) => SetLine(s, ch, s.lines[ch].(forwarder := Holding(None)))
    case Collect(ch) =>
      SetLine(s, ch, s.lines[ch].(forwarder := Waiting)).(collected := s.collected + [(ch, s.lines[ch].forwarder.item)])
    case Return(ch) => SetLine(s, ch, s.lines[ch].(forwarder := Returned))
    case AddChannel(name) =>
      if name in s.names || name == LoadBalancer.DEFAULT_SEND_CHANNEL then s
      else s.(names := s.names + [name], chans := s.chans + [|s.lines|], lines := s.lines + [Line(true, Waiting, [])])
    case RemoveChannel(name) =>
      var i := LoadBalancer.IndexOf(s.names, name);
      if i == |s.names| || name == LoadBalancer.DEFAULT_SEND_CHANNEL then s
      else
        var t := s.(names := Without(s.names, i), chans := Without(s.chans, i));
        if s.chans[i] < |s.lines| then SetLine(t, s.chans[i], s.lines[s.chans[i]].(open := false)) else t
    case Close => s.(closed := true)
  }

  /** The names follow the registry of the load balancer; other steps leave them alone. */
  lemma NamesFollow(s: System, step: Step)
    requires Enabled(s, step)
    ensures Do(s, step).names ==
            match step
            case AddChannel(name) => LoadBalancer.NamesAfter(s.names, LoadBalancer.Add(name))
            case RemoveChannel(name) => LoadBalancer.NamesAfter(s.names, LoadBalancer.Remove(name))
            case _ => s.names
  {
    if step.RemoveChannel? && step.name in s.names {
      var i :| 0 <= i < |s.names| && s.names[i] == step.name;
    }
  }

  ghost predicate IsRun(s: System, steps: seq<Step>)
    decreases |steps|
  {
    steps == [] || (Enabled(s, steps[0]) && IsRun(Do(s, steps[0]), steps[1..]))
  }

  function After(s: System, steps: seq<Step>): System
    requires IsRun(s, steps)
    decreases |steps|
  {
    if steps == [] then s else After(Do(s, steps[0]), steps[1..])
  }

  // ---------- what arrives ----------

  /** The non-nil items that the collector took from channel ch, in order. */
  function Delivered(collected: seq<(nat, Option<Item>)>, ch: nat): seq<Item> {
    if collected == [] then []
    else
      var last, before := collected[|collected| - 1], Delivered(collected[..|collected| - 1], ch);
      if last.0 == ch && last.1.Some? then before + [last.1.value] else before
  }

  lemma DeliveredMore(collected: seq<(nat, Option<Item>)>, ch: nat, entry: (nat, Option<Item>))
    ensures Delivered(collected + [entry], ch) ==
            if entry.0 == ch && entry.1.Some? then Delivered(collected, ch) + [entry.1.value] else Delivered(collected, ch)
  {
    assert (collected + [entry])[..|collected|] == collected;
  }

  /** The item a forwarder has accepted and not yet handed on. */
  function InHand(f: Forwarder): seq<Item> {
    if f.Holding? && f.item.Some? then [f.item.value] else []
  }

  /** Nothing is lost, doubled, reordered or invented on channel ch. */
  predicate Conserves(s: System, ch: nat)
    requires ch < |s.lines|
  {
    s.lines[ch].accepted == Delivered(s.collected, ch) + InHand(s.lines[ch].forwarder)
  }

  ghost predicate Inv(s: System) {
    && LoadBalancer.GoodNames(s.names)
    && |s.chans| == |s.names|
    && Distinct(s.chans)
    && (forall i :: 0 <= i < |s.chans| ==> s.chans[i] < |s.lines|)
    && (forall ch :: 0 <= ch < |s.lines| ==> (s.lines[ch].open <==> ch in s.chans))
    && (forall ch :: 0 <= ch < |s.lines| ==> Conserves(s, ch))
    && (forall k :: 0 <= k < |s.collected| ==> s.collected[k].0 < |s.lines|)
  }

  lemma {:induction false} NothingFromUnmade(collected: seq<(nat, Option<Item>)>, ch: nat)
    requires forall k :: 0 <= k < |collected| ==> collected[k].0 != ch
    ensures Delivered(collected, ch) == []
    decreases |collected|
  {
    if collected != [] {
      NothingFromUnmade(collected[..|collected| - 1], ch);
    }
  }

  /** The steps on one line. */
  lemma LineStepKeeps(s: System, step: Step)
    requires Inv(s) && Enabled(s, step) && (step.Send? || step.ReceiveNil? || step.Collect? || step.Return?)
    ensures Inv(Do(s, step))
  {
    hide Conserves, LoadBalancer.GoodNames, Distinct;
    var t := Do(s, step);
    forall ch | 0 <= ch < |t.lines|
      ensures Conserves(t, ch)
    {
      LineStepConserves(s, step, ch);
    }
  }

  lemma LineStepConserves(s: System, step: Step, ch: nat)
    requires Enabled(s, step) && (step.Send? || step.ReceiveNil? || step.Collect? || step.Return?)
    requires ch < |s.lines| && Conserves(s, ch)
    ensures Conserves(Do(s, step), ch)
  {
    if step.Collect? {
      DeliveredMore(s.collected, ch, (step.ch, s.lines[step.ch].forwarder.item));
    }
  }

  lemma AddKeeps(s: System, name: string)
    requires Inv(s)
    ensures Inv(Do(s, AddChannel(name)))
  {
    var t := Do(s, AddChannel(name));
    LoadBalancer.NamesStayGood(s.names, LoadBalancer.Add(name));
    forall ch | 0 <= ch < |t.lines|
      ensures Conserves(t, ch)
    {
      if ch < |s.lines| {
        assert Conserves(s, ch);
      } else {
        NothingFromUnmade(s.collected, ch);
      }
    }
  }

  lemma RemoveKeeps(s: System, name: string)
    requires Inv(s)
    ensures Inv(Do(s, RemoveChannel(name)))
  {
    var t := Do(s, RemoveChannel(name));
    var i := LoadBalancer.IndexOf(s.names, name);
    LoadBalancer.NamesStayGood(s.names, LoadBalancer.Remove(name));
    if t != s {
      assert name in s.names;
      LoadBalancer.WithoutFacts(s.chans, i);
      forall ch | 0 <= ch < |t.lines|
        ensures Conserves(t, ch) && (t.lines[ch].open <==> ch in t.chans)
      {
        assert Conserves(s, ch);
      }
    }
  }

  lemma StepKeeps(s: System, step: Step)
    requires Inv(s) && Enabled(s, step)
    ensures Inv(Do(s, step))
  {
    match step
    case AddChannel(name) => AddKeeps(s, name);
    case RemoveChannel(name) => RemoveKeeps(s, name);
    case Close =>
      forall ch | 0 <= ch < |s.lines|
        ensures Conserves(Do(s, step), ch)
      {
        assert Conserves(s, ch);
      }
    case _ => LineStepKeeps(s, step);
  }

  lemma {:induction false} RunKeeps(s: System, steps: seq<Step>)
    requires Inv(s) && IsRun(s, steps)
    ensures Inv(After(s, steps))
    decreases |steps|
  {
    if steps != [] {
      StepKeeps(s, steps[0]);
      RunKeeps(Do(s, steps[0]), steps[1..]);
    }
  }

  lemma InitialInv()
    ensures Inv(Initial())
  {
    var s := Initial();
    assert Delivered(s.collected, 0) == [];
    assert Conserves(s, 0);
  }

  /** What the senders of a run hand to channel ch, in order: read off the steps alone. */
  function SentTo(steps: seq<Step>, ch: nat): seq<Item>
    decreases |steps|
  {
    if steps == [] then []
    else (if steps[0].Send? && steps[0].ch == ch then [steps[0].item] else []) + SentTo(steps[1..], ch)
  }

  function AcceptedBy(s: System, ch: nat): seq<Item> {
    if ch < |s.lines| then s.lines[ch].accepted else []
  }

  lemma AcceptedStep(s: System, step: Step, ch: nat)
    requires Enabled(s, step)
    ensures AcceptedBy(Do(s, step), ch) ==
            AcceptedBy(s, ch) + if step.Send? && step.ch == ch then [step.item] else []
  {
  }

  /** A forwarder accepts exactly what is sent to its channel, in order. */
  lemma {:induction false} AcceptedIsSent(s: System, steps: seq<Step>, ch: nat)
    requires IsRun(s, steps)
    ensures AcceptedBy(After(s, steps), ch) == AcceptedBy(s, ch) + SentTo(steps, ch)
    decreases |steps|
  {
    hide AcceptedBy, Do;
    if steps != [] {
      AcceptedStep(s, steps[0], ch);
      AcceptedIsSent(Do(s, steps[0]), steps[1..], ch);
    }
  }

  /** In every interleaving of senders, forwarders, collector, AddChannel, RemoveChannel and Close,
      what the collector took from a channel is a prefix, in order, of what was sent to it, and lags
      by at most the one item the forwarder holds. */
  lemma DeliveredIsPrefix(steps: seq<Step>, ch: nat)
    requires IsRun(Initial(), steps)
    ensures var s := After(Initial(), steps);
            var sent, delivered := SentTo(steps, ch), Delivered(s.collected, ch);
            && delivered <= sent
            && |sent| - |delivered| <= 1
            && (ch < |s.lines| && !s.lines[ch].forwarder.Holding? ==> delivered == sent)
  {
    var s := After(Initial(), steps);
    InitialInv();
    RunKeeps(Initial(), steps);
    AcceptedIsSent(Initial(), steps, ch);
    assert AcceptedBy(Initial(), ch) == [] && [] + SentTo(steps, ch) == SentTo(steps, ch);
    if ch < |s.lines| {
      assert Conserves(s, ch);
    } else {
      NothingFromUnmade(s.collected, ch);
    }
  }

  // ---------- which channel belongs to a name ----------

  /** The channel that GetChannelOrDefault hands out for a name. */
  function ChannelFor(s: System, name: string): nat
    requires |s.chans| == |s.names| > 0
  {
    var i := LoadBalancer.IndexOf(s.names, name);
    if i < |s.names| then s.chans[i] else s.chans[0]
  }

  predicate IsDefault(name: string) {
    name == LoadBalancer.DEFAULT_SEND_CHANNEL
  }

  lemma AddKeepsChannels(s: System, added: string, name: string)
    requires Inv(s)
    ensures var t := Do(s, AddChannel(added));
            && |t.chans| == |t.names| > 0
            && (name in s.names ==> name in t.names && ChannelFor(t, name) == ChannelFor(s, name))
            && (added == name && name !in s.names ==>
                  name in t.names && ChannelFor(t, name) == |s.lines| && t.lines == s.lines + [Line(true, Waiting, [])])
  {
    hide Conserves, Distinct;
    if Do(s, AddChannel(added)) != s {
      IndexAppended(s.names, added, name);
    }
  }

  lemma RemoveKeepsChannels(s: System, removed: string, name: string)
    requires Inv(s)
    ensures var t := Do(s, RemoveChannel(removed));
            && |t.chans| == |t.names| > 0
            && (name in s.names && (removed != name || IsDefault(name)) ==>
                  name in t.names && ChannelFor(t, name) == ChannelFor(s, name))
            && (removed == name && name in s.names && !IsDefault(name) ==>
                  && name !in t.names && ChannelFor(t, name) == s.chans[0]
                  && ChannelFor(s, name) < |s.lines|
                  && t.lines == s.lines[ChannelFor(s, name) := s.lines[ChannelFor(s, name)].(open := false)])
  {
    hide Conserves, Without, Distinct, LoadBalancer.IndexOf;
    var cut := LoadBalancer.IndexOf(s.names, removed);
    if cut < |s.names| && !IsDefault(removed) {
      assert s.names[cut] == removed && cut > 0;
      LoadBalancer.WithoutFacts(s.names, cut);
      LoadBalancer.WithoutFacts(s.chans, cut);
      IndexWithout(s.names, cut, name);
    }
  }

  /** A registered name keeps its channel through every step but its own removal. A new name gets a new
      channel, open and empty; the removal of a name closes its channel and leads it to the default one.
      No other line is touched by the registry. */
  lemma NamesKeepChannels(s: System, step: Step, name: string)
    requires Inv(s) && Enabled(s, step)
    ensures var t := Do(s, step);
            && |t.chans| == |t.names| > 0
            && (name in s.names && (step != RemoveChannel(name) || IsDefault(name)) ==>
                  name in t.names && ChannelFor(t, name) == ChannelFor(s, name))
            && (step == AddChannel(name) && name !in s.names ==>
                  name in t.names && ChannelFor(t, name) == |s.lines| && t.lines == s.lines + [Line(true, Waiting, [])])
            && (step == RemoveChannel(name) && name in s.names && !IsDefault(name) ==>
                  && name !in t.names && ChannelFor(t, name) == s.chans[0]
                  && ChannelFor(s, name) < |s.lines|
                  && t.lines == s.lines[ChannelFor(s, name) := s.lines[ChannelFor(s, name)].(open := false)])
  {
    hide ChannelFor, Conserves, Distinct;
    match step
    case AddChannel(added) => AddKeepsChannels(s, added, name);
    case RemoveChannel(removed) => RemoveKeepsChannels(s, removed, name);
    case _ =>
      var t := Do(s, step);
      assert t.names == s.names && t.chans == s.chans;
      SameChannel(s, t, name);
  }

  lemma SameChannel(s: System, t: System, name: string)
    requires t.names == s.names && t.chans == s.chans && |s.chans| == |s.names| > 0
    ensures ChannelFor(t, name) == ChannelFor(s, name)
  {
  }

  lemma IndexAppended(names: seq<string>, added: string, name: string)
    requires added !in names
    ensures var i, j := LoadBalancer.IndexOf(names, name), LoadBalancer.IndexOf(names + [added], name);
            if name in names then i < |names| && j == i else if name == added then j == |names| else j == |names| + 1
  {
    var all := names + [added];
    var j := LoadBalancer.IndexOf(all, name);
    assert forall k :: 0 <= k < |names| ==> all[k] == names[k];
    assert all[|names|] == added;
  }

  lemma IndexWithout(names: seq<string>, cut: nat, name: string)
    requires Distinct(names) && cut < |names|
    ensures var i, j := LoadBalancer.IndexOf(names, name), LoadBalancer.IndexOf(Without(names, cut), name);
            if name in names && name != names[cut] then i < |names| && i != cut && j == (if i < cut then i else i - 1)
            else j == |names| - 1
  {
    var all := Without(names, cut);
    LoadBalancer.WithoutFacts(names, cut);
    var i, j := LoadBalancer.IndexOf(names, name), LoadBalancer.IndexOf(all, name);
    if name in names && name != names[cut] {
      assert all[if i < cut then i else i - 1] == name;
    }
  }

  /** A channel takes items exactly while it is registered: GetChannelOrDefault never hands out a
      closed one, in any reachable state. */
  lemma OpenWhileRegistered(steps: seq<Step>, name: string)
    requires IsRun(Initial(), steps)
    ensures var s := After(Initial(), steps);
            var i := LoadBalancer.IndexOf(s.names, name);
            var k := if i < |s.names| then i else 0;
            k < |s.chans| && s.chans[k] < |s.lines| && s.lines[s.chans[k]].open
  {
    InitialInv();
    RunKeeps(Initial(), steps);
    var s := After(Initial(), steps);
    var i := LoadBalancer.IndexOf(s.names, name);
    var k := if i < |s.names| then i else 0;
    assert s.chans[k] in s.chans;
  }

  lemma ClosedStep(s: System, step: Step, ch: nat)
    requires Enabled(s, step) && ch < |s.lines| && !s.lines[ch].open
    ensures var t := Do(s, step);
            ch < |t.lines| && !t.lines[ch].open && t.lines[ch].accepted == s.lines[ch].accepted
  {
  }

  /** A removed channel accepts nothing more, whatever happens later, also when its name is added
      again. */
  lemma {:induction false} ClosedForGood(s: System, steps: seq<Step>, ch: nat)
    requires IsRun(s, steps) && ch < |s.lines| && !s.lines[ch].open
    ensures var t := After(s, steps);
            ch < |t.lines| && !t.lines[ch].open && t.lines[ch].accepted == s.lines[ch].accepted
    decreases |steps|
  {
    if steps != [] {
      ClosedStep(s, steps[0], ch);
      ClosedForGood(Do(s, steps[0]), steps[1..], ch);
    }
  }

  // ---------- the end of the forwarders, and nil items ----------

  /** Forwarders return only after Close, and nil comes only from a removed channel. */
  ghost predicate Orderly(s: System) {
    && (forall ch :: 0 <= ch < |s.lines| && s.lines[ch].forwarder == Returned ==> s.closed)
    && (forall ch :: 0 <= ch < |s.lines| && s.lines[ch].forwarder == Holding(None) ==> !s.lines[ch].open)
    && (forall k :: 0 <= k < |s.collected| && s.collected[k].1 == None ==>
          s.collected[k].0 < |s.lines| && !s.lines[s.collected[k].0].open)
  }

  lemma OrderlyStep(s: System, step: Step)
    requires Orderly(s) && Enabled(s, step)
    ensures Orderly(Do(s, step)) && (Do(s, step).closed <==> s.closed || step == Close)
  {
  }

  lemma {:induction false} OrderlyRun(s: System, steps: seq<Step>)
    requires Orderly(s) && IsRun(s, steps)
    ensures Orderly(After(s, steps)) && (After(s, steps).closed <==> s.closed || Close in steps)
    decreases |steps|
  {
    hide Orderly, Do, Enabled;
    if steps != [] {
      OrderlyStep(s, steps[0]);
      OrderlyRun(Do(s, steps[0]), steps[1..]);
      assert steps == [steps[0]] + steps[1..];
    }
  }

  /** In every run a forwarder has returned only if the load balancer was closed, and the collector
      gets nil only from channels that were removed. */
  lemma OnlyAfterClose(steps: seq<Step>)
    requires IsRun(Initial(), steps)
    ensures var s := After(Initial(), steps);
            && (forall ch :: 0 <= ch < |s.lines| && s.lines[ch].forwarder == Returned ==> Close in steps)
            && (forall k :: 0 <= k < |s.collected| && s.collected[k].1 == None ==>
                  s.collected[k].0 < |s.lines| && !s.lines[s.collected[k].0].open)
  {
    OrderlyRun(Initial(), steps);
  }

  lemma ReturnedStep(s: System, step: Step, ch: nat)
    requires Enabled(s, step) && ch < |s.lines| && (s.lines[ch].forwarder == Returned || step == Return(ch))
    ensures var t := Do(s, step);
            && ch < |t.lines| && t.lines[ch].forwarder == Returned && t.lines[ch].accepted == s.lines[ch].accepted
            && Delivered(t.collected, ch) == Delivered(s.collected, ch)
  {
    if step.Collect? {
      DeliveredMore(s.collected, ch, (step.ch, s.lines[step.ch].forwarder.item));
    }
  }

  /** A forwarder that has returned takes and hands on nothing more. */
  lemma {:induction false} ReturnedForGood(s: System, steps: seq<Step>, ch: nat)
    requires IsRun(s, steps) && ch < |s.lines|
    requires s.lines[ch].forwarder == Returned || (steps != [] && steps[0] == Return(ch))
    ensures var t := After(s, steps);
            && ch < |t.lines| && t.lines[ch].forwarder == Returned && t.lines[ch].accepted == s.lines[ch].accepted
            && Delivered(t.collected, ch) == Delivered(s.collected, ch)
    decreases |steps|
  {
    hide Do, Enabled, Delivered;
    if steps != [] {
      ReturnedStep(s, steps[0], ch);
      ReturnedForGood(Do(s, steps[0]), steps[1..], ch);
    }
  }
}
