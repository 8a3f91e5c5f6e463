/**
 * How the parts of the protocol fit together: what a client announces is
 * what the coordinator stores, what the coordinator stores is what the next
 * snapshot shows a client, and how a peer's update differs from the
 * coordinator's.
 */
module RoundTrips {
  import opened JavaText
  import opened Packets
  import opened Directory
  import Coordinator
  import Client
  import Peer

  /**
   * The coordinator's entry for a client after that client's announcement:
   * "Online" exactly when the joined file list is non-empty, and the stored
   * list equals the announced one exactly when `split` can give it back.
   * The empty list comes back as `[""]`.
   */
  lemma AnnouncementApplied(nodes: map<int, NodeInfo>, id: int, files: seq<string>)
    requires id in nodes
    ensures var r := Coordinator.Apply(nodes, Client.Announcement(id, files));
      && r.Keys == nodes.Keys
      && (r[id].status == Online <==> files != [] && files != [""])
      && (r[id].files == files <==> Splittable(',', files))
      && (files == [] ==> r[id].files == [""] && r[id].status == Offline)
      && r[id].ip == nodes[id].ip && r[id].port == nodes[id].port
  {
    SplitJoinExactly(',', files);
    SplitJoinEmpty(',');
  }

  /**
   * A file list that came out of a split on ',' (as a node's files read from
   * nodes.config do) is stored unchanged when it is announced, unless it is
   * empty.
   */
  lemma StoredFilesSurvive(nodes: map<int, NodeInfo>, id: int, text: string)
    requires id in nodes
    ensures var files := Split(text, ',');
      Coordinator.Apply(nodes, Client.Announcement(id, files))[id].files ==
        (if files == [] then [""] else files)
  {
    var files := Split(text, ',');
    AnnouncementApplied(nodes, id, files);
    if files != [] {
      SplitJoinSplit(text, ',');
    }
  }

  /** A snapshot entry decodes to the node's status and its comma-joined files. */
  lemma EntryDecoded(id: int, info: NodeInfo)
    requires '|' !in info.status
    ensures Client.DecodeEntry(Coordinator.EntryPacket(id, info)) == Client.Entry(id, info.status, Join(',', info.files))
  {
    var files := Join(',', info.files);
    Client.DecodeEntryRoundTrip(1, id, |info.status + "|" + files|, info.status, files);
  }

  /**
   * A client receiving the coordinator's snapshot shows one entry per listed
   * node, in the snapshot's order, with that node's status and files. A
   * snapshot with no node in it is reported as not holding packets.
   */
  lemma SnapshotReceived(nodes: map<int, NodeInfo>, upTo: int)
    requires forall k :: k in nodes ==> '|' !in nodes[k].status
    ensures var ps := Coordinator.Snapshot(nodes, upTo);
      var rc := Client.Receive(Decoded(ListObject(PacketList(ps))));
      && (ps == [] ==> rc == Client.NotPackets)
      && (ps != [] ==>
            && rc.Shown? && |rc.entries| == |ps|
            && forall i :: 0 <= i < |ps| ==>
                 && ps[i].nodeId in nodes
                 && rc.entries[i] == Client.Entry(ps[i].nodeId, nodes[ps[i].nodeId].status, Join(',', nodes[ps[i].nodeId].files)))
  {
    var ps := Coordinator.Snapshot(nodes, upTo);
    Coordinator.SnapshotContents(nodes, upTo);
    if ps != [] {
      Client.ReceivePackets(ps);
    }
    forall i | 0 <= i < |ps|
      ensures Client.DecodeEntry(ps[i]) == Client.Entry(ps[i].nodeId, nodes[ps[i].nodeId].status, Join(',', nodes[ps[i].nodeId].files))
    {
      EntryDecoded(ps[i].nodeId, nodes[ps[i].nodeId]);
    }
  }

  /**
   * One full cycle: a client announces its files, the coordinator applies
   * the announcement and broadcasts its snapshot, and the client finds its
   * own entry in what it receives, with the status the announcement earned
   * and a file text that splits back into the announced list.
   */
  lemma AnnounceThenSnapshot(nodes: map<int, NodeInfo>, id: int, files: seq<string>, upTo: int) returns (i: nat)
    requires id in nodes && 1 <= id <= upTo
    requires forall k :: k in nodes ==> '|' !in nodes[k].status
    requires Splittable(',', files)
    ensures var r := Coordinator.Apply(nodes, Client.Announcement(id, files));
      var rc := Client.Receive(Decoded(ListObject(PacketList(Coordinator.Snapshot(r, upTo)))));
      && rc.Shown? && i < |rc.entries|
      && rc.entries[i].nodeId == id
      && rc.entries[i].status == (if files == [""] then Offline else Online)
      && Split(rc.entries[i].files, ',') == files
  {
    var r := Coordinator.Apply(nodes, Client.Announcement(id, files));
    AnnouncementApplied(nodes, id, files);
    var ps := Coordinator.Snapshot(r, upTo);
    Coordinator.SnapshotContents(r, upTo);
    assert Coordinator.Lists(ps, id);
    i :| 0 <= i < |ps| && ps[i].nodeId == id;
    assert r[id].files == files;
    SnapshotReceived(r, upTo);
    var rc := Client.Receive(Decoded(ListObject(PacketList(ps))));
    assert rc.entries[i] == Client.Entry(id, r[id].status, Join(',', files));
    SplitJoin(',', files);
  }

  /**
   * The peer and the coordinator store the same files for a packet; their
   * statuses agree when the payload length is positive, and otherwise the
   * peer says "Online" where the coordinator says "Offline".
   */
  lemma PeerAndCoordinatorUpdates(nodes: map<int, NodeInfo>, p: Packet)
    ensures p.dataLength > 0 ==> Peer.PeerApply(nodes, p) == Coordinator.Apply(nodes, p)
    ensures p.nodeId in nodes ==>
      Peer.PeerApply(nodes, p) == Coordinator.Apply(nodes, p)[p.nodeId := Coordinator.Apply(nodes, p)[p.nodeId].(status := Online)]
    ensures p.nodeId in nodes && p.dataLength <= 0 ==> Peer.PeerApply(nodes, p) != Coordinator.Apply(nodes, p)
  {
    var a := Peer.PeerApply(nodes, p);
    var b := Coordinator.Apply(nodes, p);
    if p.nodeId in nodes {
      var c := b[p.nodeId := b[p.nodeId].(status := Online)];
      assert a.Keys == c.Keys;
      assert forall k | k in a :: a[k] == c[k];
      if p.dataLength > 0 {
        assert b[p.nodeId] == c[p.nodeId];
        assert b == c;
      } else {
        assert a[p.nodeId].status != b[p.nodeId].status;
      }
    }
  }
}
