/** The two callers of the sharder: libp2p/connectionMonitor/libp2pConnectionMonitorSimple.go closes
    what it proposes, and libp2p/discovery/hostWithConnectionManagement.go asks it before dialling.
    The network is the set of its peers; a close always succeeds. */
module Connections {
  import opened Wrappers
  import opened Admission
  import opened Eviction
  import opened ListsSharder
  import PreferredPeers

  /** network.Conn, as far as it is used here */
  datatype Conn = Conn(id: string, remotePeer: PeerId, remoteAddress: string)

  class Network {
    var connected: set<PeerId>

    constructor ()
      ensures connected == {}
    {
      connected := {};
    }

    /** Peers: every connected peer once, in any order. */
    method Peers() returns (list: seq<PeerId>)
      ensures Distinct(list) && SetOf(list) == connected
    {
      list := [];
      var rest := connected;
      while rest != {}
        invariant Distinct(list) && SetOf(list) + rest == connected && SetOf(list) !! rest
        decreases rest
      {
        var p :| p in rest;
        assert SetOf(list + [p]) == SetOf(list) + {p};
        assert p !in SetOf(list);
        list, rest := list + [p], rest - {p};
      }
    }

    method ClosePeer(p: PeerId)
      modifies this
      ensures connected == old(connected) - {p}
    {
      connected := connected - {p};
    }
  }

  /** Has */
  method Has(pid: PeerId, list: seq<PeerId>) returns (found: bool)
    ensures found <==> pid in list
  {
    for i := 0 to |list|
      invariant pid !in list[..i]
    {
      if list[i] == pid {
        return true;
      }
    }
    return false;
  }

  /** after is what a Connected event can leave of before: the peers that one eviction spares. */
  ghost predicate SettlesTo(v: View, before: set<PeerId>, after: set<PeerId>) {
    exists e :: Evicts(v, before, e) && after == before - e
  }

  /** Such a step is a Connected event of the runs in module Eviction. */
  lemma SettlingIsEvent(v: View, s: set<PeerId>, p: PeerId, after: set<PeerId>)
    requires SettlesTo(v, s + {p}, after)
    ensures exists e :: Possible(v, s, Eviction.Connected(p, e)) && after == Next(s, Eviction.Connected(p, e))
  {
    var e :| Evicts(v, s + {p}, e) && after == s + {p} - e;
    assert Possible(v, s, Eviction.Connected(p, e));
  }

  /** The loop that closes the proposed peers. */
  method CloseAll(netw: Network, evicted: seq<PeerId>)
    modifies netw
    ensures netw.connected == old(netw.connected) - SetOf(evicted)
  {
    for i := 0 to |evicted|
      invariant netw.connected == old(netw.connected) - SetOf(evicted[..i])
    {
      assert evicted[..i + 1] == evicted[..i] + [evicted[i]];
      assert SetOf(evicted[..i] + [evicted[i]]) == SetOf(evicted[..i]) + {evicted[i]};
      netw.ClosePeer(evicted[i]);
    }
    assert evicted[..|evicted|] == evicted;
  }

  class ConnectionMonitor {
    const sharder: ListsSharder
    var thresholdMinConnectedPeers: int

    constructor (sharder: ListsSharder, threshold: int)
      ensures this.sharder == sharder && thresholdMinConnectedPeers == threshold
    {
      this.sharder, thresholdMinConnectedPeers := sharder, threshold;
    }

    /** Connected: the network holds the new peer already. What is proposed for eviction is closed,
        and noting the address changes no classification. Unless ties leave it open, a peer stays
        exactly when it has room. */
    method Connected(netw: Network, conn: Conn)
      requires conn.remotePeer in netw.connected
      modifies netw, sharder.preferredPeersHolder
      ensures sharder.preferredPeersHolder.Value() ==
              PreferredPeers.PutConnection(old(sharder.preferredPeersHolder.Value()), conn.remotePeer, conn.remoteAddress)
      ensures sharder.TheView() == old(sharder.TheView())
      ensures SettlesTo(sharder.TheView(), old(netw.connected), netw.connected)
      ensures forall p :: p in old(netw.connected) && Decided(sharder.TheView(), old(netw.connected), p) ==>
                (p in netw.connected <==> HasRoom(sharder.TheView(), old(netw.connected), p))
    {
      hide Evicts, IsEvictionList, HasRoom, IsFull;
      var allPeers := netw.Peers();
      sharder.preferredPeersHolder.PutConnectionAddress(conn.remotePeer, conn.remoteAddress);
      assert sharder.TheFacts() == old(sharder.TheFacts());
      var evicted := sharder.ComputeEvictionList(allPeers);
      EvictionListEvicts(sharder.TheView(), allPeers, evicted);
      forall p | p in netw.connected
        ensures Decided(sharder.TheView(), netw.connected, p) ==>
                  (p !in SetOf(evicted) <==> HasRoom(sharder.TheView(), netw.connected, p))
      {
        Verdict(sharder.TheView(), netw.connected, p);
      }
      CloseAll(netw, evicted);
    }

    /** Disconnected: the network has let the peer go already. The holder is asked to remove the id
        of the connection, which is not the id of the peer; ok is false where that panics. */
    method Disconnected(netw: Network, conn: Option<Conn>) returns (ok: bool, reconnect: bool)
      modifies sharder.preferredPeersHolder
      ensures netw.connected == old(netw.connected)
      ensures conn == None ==> ok && sharder.preferredPeersHolder.Value() == old(sharder.preferredPeersHolder.Value())
      ensures conn != None ==>
                var after := PreferredPeers.Remove(old(sharder.preferredPeersHolder.Value()), conn.value.id);
                && (ok <==> after != None)
                && (ok ==> sharder.preferredPeersHolder.Value() == after.value)
      ensures ok ==> (reconnect <==> |netw.connected| < thresholdMinConnectedPeers)
    {
      ok, reconnect := true, false;
      if conn != None {
        ok := sharder.preferredPeersHolder.RemovePeer(conn.value.id);
        if !ok {
          return;
        }
      }
      reconnect := |netw.connected| < thresholdMinConnectedPeers;
    }
  }

  class HostWithConnectionManagement {
    const netw: Network
    const sharder: ListsSharder

    constructor (netw: Network, sharder: ListsSharder)
      ensures this.netw == netw && this.sharder == sharder
    {
      this.netw, this.sharder := netw, sharder;
    }

    /** canConnectToPeer: refused exactly when an eviction of the connected peers and pid would
        propose pid; unless ties leave that open, exactly when pid has no room. */
    method CanConnectToPeer(pid: PeerId) returns (err: Option<string>)
      ensures exists e :: Evicts(sharder.TheView(), netw.connected + {pid}, e) && (err != None <==> pid in e)
      ensures Decided(sharder.TheView(), netw.connected + {pid}, pid) ==>
                (err == None <==> HasRoom(sharder.TheView(), netw.connected + {pid}, pid))
    {
      hide Evicts, IsEvictionList, HasRoom, IsFull;
      var allPeers := netw.Peers();
      var known := Has(pid, allPeers);
      if !known {
        assert SetOf(allPeers + [pid]) == SetOf(allPeers) + {pid};
        allPeers := allPeers + [pid];
      } else {
        assert pid in SetOf(allPeers);
        assert netw.connected + {pid} == netw.connected;
      }
      var evicted := sharder.ComputeEvictionList(allPeers);
      EvictionListEvicts(sharder.TheView(), allPeers, evicted);
      Verdict(sharder.TheView(), netw.connected + {pid}, pid);
      var proposed := Has(pid, evicted);
      assert pid in SetOf(evicted) <==> proposed;
      err := if proposed then Some("unwanted peer") else None;
    }
  }
}
