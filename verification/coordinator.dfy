/**
 * The coordinator of Server/UDPServer2.java and its older copy UDPServer2.java.
 * Three loops share the node directory and `lastReceivedTime`; each loop
 * iteration is one method here:
 *   - the listener applies a received `Packet` to the directory and stamps
 *     the sender's last-seen time;
 *   - the timeout checker demotes ids 1..5 that were never heard from or
 *     have been silent for more than 30 seconds;
 *   - the broadcaster builds a snapshot `List<Packet>` (ids 1..6 in
 *     Server/UDPServer2.java, ids 1..5 in UDPServer2.java) and sends it to
 *     every present id 1..5.
 */
module Coordinator {
  import opened JavaText
  import opened Packets
  import opened ConfigLines
  import opened Directory
  import Timing

  /** `TIMEOUT_MS`. */
  const TimeoutMs: int := 30 * 1000
  /** The timeout checker and the send loop visit ids 1..5 in both copies. */
  const CheckedMaxId: int := 5
  /** The snapshot covers ids 1..6 in Server/UDPServer2.java and ids 1..5 in UDPServer2.java. */
  const ServerSnapshotMaxId: int := 6
  const RootSnapshotMaxId: int := 5

  const MaxLong: int := 0x7FFF_FFFF_FFFF_FFFF
  /** A `System.currentTimeMillis()` reading; the difference of two never overflows a `long`. */
  type Millis = t: int | 0 <= t <= MaxLong

  // ---------------------------------------------------------------------------
  // Listener
  // ---------------------------------------------------------------------------

  /**
   * The listener's update for one `Packet`: `setNodeFiles` with the payload
   * split on ',', then `setNodeStatus` with "Online" only when `dataLength`
   * is positive. A sender missing from the directory changes nothing.
   */
  function Apply(nodes: map<int, NodeInfo>, p: Packet): (r: map<int, NodeInfo>)
    ensures r.Keys == nodes.Keys
    ensures p.nodeId in nodes ==>
              && r[p.nodeId].files == Split(p.data, ',')
              && (r[p.nodeId].status == Online <==> p.dataLength > 0)
              && (r[p.nodeId].status == Offline <==> p.dataLength <= 0)
              && r[p.nodeId].ip == nodes[p.nodeId].ip && r[p.nodeId].port == nodes[p.nodeId].port
    ensures forall k :: k in nodes && k != p.nodeId ==> r[k] == nodes[k]
    ensures p.nodeId !in nodes ==> r == nodes
  {
    var status := if p.dataLength > 0 then Online else Offline;
    WithStatus(WithFiles(nodes, p.nodeId, Split(p.data, ',')), p.nodeId, status)
  }

  /** An announcement with an empty payload marks its sender "Offline" and leaves it the one file name "". */
  lemma ApplyEmptyPayload(nodes: map<int, NodeInfo>, id: int, v: Byte)
    requires id in nodes
    ensures Apply(nodes, Packet(v, id, 0, "")).Keys == nodes.Keys
    ensures Apply(nodes, Packet(v, id, 0, ""))[id].status == Offline
    ensures Apply(nodes, Packet(v, id, 0, ""))[id].files == [""]
  {
  }

  // ---------------------------------------------------------------------------
  // Timeout checker
  // ---------------------------------------------------------------------------

  /** Never heard from, or silent for more than `TIMEOUT_MS`. */
  predicate Expired(last: map<int, Millis>, now: Millis, id: int) {
    id !in last || now - last[id] > TimeoutMs
  }

  /** The directory once the timeout checker has visited ids 1..upTo. */
  function TimedOut(nodes: map<int, NodeInfo>, last: map<int, Millis>, now: Millis, upTo: int): (r: map<int, NodeInfo>)
    ensures r.Keys == nodes.Keys
  {
    map k | k in nodes :: if 1 <= k <= upTo && Expired(last, now, k) then nodes[k].(status := Offline) else nodes[k]
  }

  /**
   * The timeout pass only ever demotes: every visited id that has expired
   * is "Offline" afterwards, every other node is left exactly as it was,
   * and no node gains a status other than "Offline" or loses its address
   * or files.
   */
  lemma TimeoutNeverPromotes(nodes: map<int, NodeInfo>, last: map<int, Millis>, now: Millis, upTo: int)
    ensures var r := TimedOut(nodes, last, now, upTo);
      && (forall k :: k in nodes ==> r[k] == nodes[k].(status := r[k].status))
      && (forall k :: k in nodes ==> r[k].status == nodes[k].status || r[k].status == Offline)
      && (forall k :: k in nodes && 1 <= k <= upTo && Expired(last, now, k) ==> r[k].status == Offline)
      && (forall k :: k in nodes && !(1 <= k <= upTo && Expired(last, now, k)) ==> r[k] == nodes[k])
  {
  }

  /** Visiting one more id is one `setNodeStatus(id, "Offline")` when that id has expired. */
  lemma TimedOutStep(nodes: map<int, NodeInfo>, last: map<int, Millis>, now: Millis, upTo: int)
    requires 0 <= upTo
    ensures TimedOut(nodes, last, now, upTo + 1) ==
              if Expired(last, now, upTo + 1) then WithStatus(TimedOut(nodes, last, now, upTo), upTo + 1, Offline)
              else TimedOut(nodes, last, now, upTo)
  {
    var a := TimedOut(nodes, last, now, upTo + 1);
    var b := TimedOut(nodes, last, now, upTo);
    if Expired(last, now, upTo + 1) {
      var c := WithStatus(b, upTo + 1, Offline);
      assert a.Keys == c.Keys;
      forall k | k in a ensures a[k] == c[k] {
        if k == upTo + 1 {
          assert a[k] == nodes[k].(status := Offline);
        }
      }
    } else {
      assert a.Keys == b.Keys;
    }
  }

  /**
   * The liveness rule at its boundary: silent for 30001 ms means "Offline";
   * silent for exactly 30000 ms, or just heard from, leaves the status alone;
   * id 6 is never visited.
   */
  lemma TimeoutBoundary(nodes: map<int, NodeInfo>, last: map<int, Millis>, now: Millis, id: int)
    requires id in nodes && 1 <= id <= CheckedMaxId && id in last
    ensures last[id] == now - TimeoutMs - 1 ==> TimedOut(nodes, last, now, CheckedMaxId)[id].status == Offline
    ensures last[id] == now - TimeoutMs ==> TimedOut(nodes, last, now, CheckedMaxId)[id] == nodes[id]
    ensures last[id] == now ==> TimedOut(nodes, last, now, CheckedMaxId)[id] == nodes[id]
    ensures 6 in nodes ==> TimedOut(nodes, last, now, CheckedMaxId)[6] == nodes[6]
  {
    TimeoutNeverPromotes(nodes, last, now, CheckedMaxId);
  }

  // ---------------------------------------------------------------------------
  // Broadcaster
  // ---------------------------------------------------------------------------

  /** The snapshot entry for one node: status and comma-joined files in the payload slot. */
  function EntryPacket(id: int, info: NodeInfo): (p: Packet)
    ensures p.version == 1 && p.nodeId == id && p.dataLength == |p.data|
    ensures |p.data| > |info.status| && p.data[..|info.status|] == info.status && p.data[|info.status|] == '|'
    ensures p.data[|info.status| + 1..] == Join(',', info.files)
  {
    var fileListWithStatus := info.status + "|" + Join(',', info.files);
    Packet(1, id, |fileListWithStatus|, fileListWithStatus)
  }

  /** The snapshot over ids 1..upTo: one entry per present id, in ascending id order. */
  function Snapshot(nodes: map<int, NodeInfo>, upTo: int): (ps: seq<Packet>)
    ensures |ps| <= if upTo < 1 then 0 else upTo
    decreases upTo
  {
    if upTo < 1 then []
    else Snapshot(nodes, upTo - 1) + (if upTo in nodes then [EntryPacket(upTo, nodes[upTo])] else [])
  }

  ghost predicate Lists(ps: seq<Packet>, id: int) {
    exists i :: 0 <= i < |ps| && ps[i].nodeId == id
  }

  /** Every packet of a snapshot is the entry packet of a present id in 1..upTo, and the ids strictly ascend. */
  lemma {:induction false} SnapshotEntries(nodes: map<int, NodeInfo>, upTo: int)
    ensures forall i :: 0 <= i < |Snapshot(nodes, upTo)| ==>
              && 1 <= Snapshot(nodes, upTo)[i].nodeId <= upTo
              && Snapshot(nodes, upTo)[i].nodeId in nodes
              && Snapshot(nodes, upTo)[i] == EntryPacket(Snapshot(nodes, upTo)[i].nodeId, nodes[Snapshot(nodes, upTo)[i].nodeId])
    ensures forall i, j :: 0 <= i < j < |Snapshot(nodes, upTo)| ==> Snapshot(nodes, upTo)[i].nodeId < Snapshot(nodes, upTo)[j].nodeId
    decreases upTo
  {
    if upTo >= 1 {
      SnapshotEntries(nodes, upTo - 1);
      var front := Snapshot(nodes, upTo - 1);
      var s := Snapshot(nodes, upTo);
      assert forall i :: 0 <= i < |front| ==> s[i] == front[i];
    }
  }

  /** Every present id in 1..upTo is listed in the snapshot. */
  lemma {:induction false} SnapshotListsPresent(nodes: map<int, NodeInfo>, upTo: int)
    ensures forall id :: 1 <= id <= upTo && id in nodes ==> Lists(Snapshot(nodes, upTo), id)
    decreases upTo
  {
    if upTo >= 1 {
      SnapshotListsPresent(nodes, upTo - 1);
      var front := Snapshot(nodes, upTo - 1);
      var s := Snapshot(nodes, upTo);
      forall id | 1 <= id <= upTo && id in nodes ensures Lists(s, id) {
        if id < upTo {
          assert Lists(front, id);
          var i :| 0 <= i < |front| && front[i].nodeId == id;
          assert s[i] == front[i];
        } else {
          assert s[|s| - 1].nodeId == id;
        }
      }
    }
  }

  /**
   * A snapshot lists exactly the present ids in 1..upTo, each once, in
   * strictly ascending order, each with that node's entry packet.
   */
  lemma SnapshotContents(nodes: map<int, NodeInfo>, upTo: int)
    ensures forall i :: 0 <= i < |Snapshot(nodes, upTo)| ==>
              && 1 <= Snapshot(nodes, upTo)[i].nodeId <= upTo
              && Snapshot(nodes, upTo)[i].nodeId in nodes
              && Snapshot(nodes, upTo)[i] == EntryPacket(Snapshot(nodes, upTo)[i].nodeId, nodes[Snapshot(nodes, upTo)[i].nodeId])
    ensures forall i, j :: 0 <= i < j < |Snapshot(nodes, upTo)| ==> Snapshot(nodes, upTo)[i].nodeId < Snapshot(nodes, upTo)[j].nodeId
    ensures forall id :: Lists(Snapshot(nodes, upTo), id) <==> 1 <= id <= upTo && id in nodes
  {
    SnapshotEntries(nodes, upTo);
    SnapshotListsPresent(nodes, upTo);
    var s := Snapshot(nodes, upTo);
    forall id | Lists(s, id) ensures 1 <= id <= upTo && id in nodes {
      var i :| 0 <= i < |s| && s[i].nodeId == id;
    }
  }

  /** Server/UDPServer2.java: a directory entry for node 6 (the server itself) is part of the snapshot. */
  lemma ServerSnapshotListsSix(nodes: map<int, NodeInfo>)
    ensures Lists(Snapshot(nodes, ServerSnapshotMaxId), 6) <==> 6 in nodes
  {
    SnapshotContents(nodes, ServerSnapshotMaxId);
  }

  /** UDPServer2.java: the snapshot stops at id 5, so node 6 is never listed. */
  lemma RootSnapshotOmitsSix(nodes: map<int, NodeInfo>)
    ensures !Lists(Snapshot(nodes, RootSnapshotMaxId), 6)
    ensures forall id :: Lists(Snapshot(nodes, RootSnapshotMaxId), id) <==> 1 <= id <= 5 && id in nodes
  {
    SnapshotContents(nodes, RootSnapshotMaxId);
  }

  /** Where one copy of the snapshot datagram goes. */
  datatype Destination = Destination(nodeId: int, ip: string, port: int)

  /**
   * The sends of one broadcast round over ids 1..upTo: every present id
   * whose send does not fail, in ascending order. A failed send is logged
   * and the loop moves on.
   */
  function Deliveries(nodes: map<int, NodeInfo>, upTo: int, failed: set<int>): (ds: seq<Destination>)
    ensures |ds| <= if upTo < 1 then 0 else upTo
    ensures forall i :: 0 <= i < |ds| ==> ds[i].nodeId !in failed
    decreases upTo
  {
    if upTo < 1 then []
    else
      Deliveries(nodes, upTo - 1, failed)
      + (if upTo in nodes && upTo !in failed then [Destination(upTo, nodes[upTo].ip, nodes[upTo].port)] else [])
  }

  ghost predicate Reaches(ds: seq<Destination>, id: int) {
    exists i :: 0 <= i < |ds| && ds[i].nodeId == id
  }

  /** Every delivery goes to a present id whose send did not fail, at the address the directory holds for it. */
  lemma {:induction false} DeliveriesAddressed(nodes: map<int, NodeInfo>, upTo: int, failed: set<int>)
    ensures forall i :: 0 <= i < |Deliveries(nodes, upTo, failed)| ==>
              var d := Deliveries(nodes, upTo, failed)[i];
              && 1 <= d.nodeId <= upTo && d.nodeId in nodes
              && d == Destination(d.nodeId, nodes[d.nodeId].ip, nodes[d.nodeId].port)
    decreases upTo
  {
    if upTo >= 1 {
      DeliveriesAddressed(nodes, upTo - 1, failed);
      var front := Deliveries(nodes, upTo - 1, failed);
      var s := Deliveries(nodes, upTo, failed);
      assert forall i :: 0 <= i < |front| ==> s[i] == front[i];
    }
  }

  /** Every present id in 1..upTo whose send does not fail is reached. */
  lemma {:induction false} DeliveriesReachAll(nodes: map<int, NodeInfo>, upTo: int, failed: set<int>)
    ensures forall id :: 1 <= id <= upTo && id in nodes && id !in failed ==> Reaches(Deliveries(nodes, upTo, failed), id)
    decreases upTo
  {
    if upTo >= 1 {
      DeliveriesReachAll(nodes, upTo - 1, failed);
      var front := Deliveries(nodes, upTo - 1, failed);
      var s := Deliveries(nodes, upTo, failed);
      forall id | 1 <= id <= upTo && id in nodes && id !in failed ensures Reaches(s, id) {
        if id < upTo {
          assert Reaches(front, id);
          var i :| 0 <= i < |front| && front[i].nodeId == id;
          assert s[i] == front[i];
        } else {
          assert s[|s| - 1].nodeId == id;
        }
      }
    }
  }

  /**
   * Delivery is independent per destination: a present id in 1..upTo is
   * reached exactly when its own send does not fail, whatever happens to
   * the others, at the address the directory holds for it.
   */
  lemma DeliveriesIndependent(nodes: map<int, NodeInfo>, upTo: int, failed: set<int>)
    ensures forall id :: Reaches(Deliveries(nodes, upTo, failed), id) <==> 1 <= id <= upTo && id in nodes && id !in failed
    ensures forall i :: 0 <= i < |Deliveries(nodes, upTo, failed)| ==>
              var d := Deliveries(nodes, upTo, failed)[i];
              d.nodeId in nodes && d == Destination(d.nodeId, nodes[d.nodeId].ip, nodes[d.nodeId].port)
  {
    DeliveriesAddressed(nodes, upTo, failed);
    DeliveriesReachAll(nodes, upTo, failed);
    var s := Deliveries(nodes, upTo, failed);
    forall id | Reaches(s, id) ensures 1 <= id <= upTo && id in nodes && id !in failed {
      var i :| 0 <= i < |s| && s[i].nodeId == id;
    }
  }

  // ---------------------------------------------------------------------------
  // The coordinator's state and its three loop bodies
  // ---------------------------------------------------------------------------

  class Server {
    const config: ConfigLoader
    /** 6 for Server/UDPServer2.java, 5 for UDPServer2.java. */
    const snapshotMaxId: int
    var lastReceivedTime: map<int, Millis>

    /** `new UDPServer2()`: load the directory; nothing has been heard yet. */
    constructor (lines: seq<string>, snapshotMaxId: int)
      ensures fresh(config) && config.nodes == Load(ParseLine, map[], lines)
      ensures this.snapshotMaxId == snapshotMaxId && lastReceivedTime == map[]
    {
      config := new ConfigLoader(lines);
      this.snapshotMaxId := snapshotMaxId;
      lastReceivedTime := map[];
    }

    /**
     * One turn of the listener loop. A `Packet` is applied and its sender's
     * time is stamped, even for a sender the directory does not know; any
     * other object is logged and ignored. A datagram that does not
     * deserialise throws out of the loop, which ends the listener.
     */
    method Listen(received: Received, now: Millis) returns (listening: bool)
      modifies this, config
      ensures listening <==> received.Decoded?
      ensures received.Decoded? && received.obj.PacketObject? ==>
                && config.nodes == Apply(old(config.nodes), received.obj.packet)
                && lastReceivedTime == old(lastReceivedTime)[received.obj.packet.nodeId := now]
      ensures !(received.Decoded? && received.obj.PacketObject?) ==>
                config.nodes == old(config.nodes) && lastReceivedTime == old(lastReceivedTime)
    {
      if received.Undecodable? {
        return false;
      }
      match received.obj {
        case PacketObject(packet) =>
          var nodeId := packet.nodeId;
          var files := packet.data;
          var dataSize := packet.dataLength;
          var status := if dataSize > 0 then Online else Offline;
          config.SetNodeFiles(nodeId, Split(files, ','));
          config.SetNodeStatus(nodeId, status);
          lastReceivedTime := lastReceivedTime[nodeId := now];
        case _ =>
      }
      listening := true;
    }

    /** One pass of the timeout checker over ids 1..5. */
    method CheckTimeouts(now: Millis)
      modifies config
      ensures config.nodes == TimedOut(old(config.nodes), lastReceivedTime, now, CheckedMaxId)
    {
      var nodeId := 1;
      while nodeId <= CheckedMaxId
        invariant 1 <= nodeId <= CheckedMaxId + 1
        invariant config.nodes == TimedOut(old(config.nodes), lastReceivedTime, now, nodeId - 1)
      {
        TimedOutStep(old(config.nodes), lastReceivedTime, now, nodeId - 1);
        if nodeId !in lastReceivedTime {
          config.SetNodeStatus(nodeId, Offline);
        } else if now - lastReceivedTime[nodeId] > TimeoutMs {
          config.SetNodeStatus(nodeId, Offline);
        }
        nodeId := nodeId + 1;
      }
    }

    /** The broadcaster's `packetList`, built id by id from the live directory. */
    method BuildSnapshot() returns (packetList: seq<Packet>)
      ensures packetList == Snapshot(config.nodes, snapshotMaxId)
    {
      var nodes := config.GetNodes();
      packetList := [];
      var version: Byte := 1;
      var nodeId := 1;
      while nodeId <= snapshotMaxId
        invariant 1 <= nodeId <= if snapshotMaxId < 1 then 1 else snapshotMaxId + 1
        invariant packetList == Snapshot(nodes, nodeId - 1)
      {
        if nodeId in nodes {
          var node := nodes[nodeId];
          var fileListWithStatus := node.status + "|" + Join(',', node.files);
          var dataLength := |fileListWithStatus|;
          packetList := packetList + [Packet(version, nodeId, dataLength, fileListWithStatus)];
        }
        nodeId := nodeId + 1;
      }
    }

    /**
     * One broadcaster round: build the snapshot, send it to every present id
     * 1..5 (the ids in `failed` throw on send and are skipped), then draw the
     * next delay.
     */
    method Broadcast(failed: set<int>, draw: nat) returns (packetList: seq<Packet>, sentTo: seq<Destination>, delay: int)
      requires draw < 30
      ensures packetList == Snapshot(config.nodes, snapshotMaxId)
      ensures sentTo == Deliveries(config.nodes, CheckedMaxId, failed)
      ensures 1 <= delay <= 30 && delay == Timing.AnnounceDelay(draw)
    {
      packetList := BuildSnapshot();
      var nodes := config.GetNodes();
      sentTo := [];
      var nodeId := 1;
      while nodeId <= CheckedMaxId
        invariant 1 <= nodeId <= CheckedMaxId + 1
        invariant sentTo == Deliveries(nodes, nodeId - 1, failed)
      {
        if nodeId in nodes {
          var node := nodes[nodeId];
          if nodeId !in failed {
            sentTo := sentTo + [Destination(nodeId, node.ip, node.port)];
          }
        }
        nodeId := nodeId + 1;
      }
      delay := Timing.AnnounceDelay(draw);
    }
  }
}
