/**
 * The peer of Peer/UDPPeer.java: there is no coordinator, every node sends
 * its own file list straight to every other id and keeps its own view of
 * the directory. Its three threads are the listener (a received `Packet`
 * marks its sender "Online" and stores its files), the send round (one
 * version-0 packet to each id 1..n but itself, n being the directory's
 * size) and the heartbeat (every 30 seconds all ids 1..n but itself are
 * reset to "Offline").
 */
module Peer {
  import opened JavaText
  import opened Packets
  import opened ConfigLines
  import opened Directory

  // ---------------------------------------------------------------------------
  // Listener
  // ---------------------------------------------------------------------------

  /**
   * The listener's update: status "Online" whatever the payload, then the
   * payload split on ',' as the file list. An unknown sender changes nothing.
   */
  function PeerApply(nodes: map<int, NodeInfo>, p: Packet): (r: map<int, NodeInfo>)
    ensures r.Keys == nodes.Keys
    ensures p.nodeId in nodes ==>
              && r[p.nodeId].status == Online
              && r[p.nodeId].files == Split(p.data, ',')
              && r[p.nodeId].ip == nodes[p.nodeId].ip && r[p.nodeId].port == nodes[p.nodeId].port
    ensures forall k :: k in nodes && k != p.nodeId ==> r[k] == nodes[k]
    ensures p.nodeId !in nodes ==> r == nodes
  {
    WithFiles(WithStatus(nodes, p.nodeId, Online), p.nodeId, Split(p.data, ','))
  }

  // ---------------------------------------------------------------------------
  // Heartbeat
  // ---------------------------------------------------------------------------

  /** The directory once the heartbeat loop has visited ids 1..upTo. */
  function HeartbeatUpTo(nodes: map<int, NodeInfo>, self: int, upTo: int): (r: map<int, NodeInfo>)
    ensures r.Keys == nodes.Keys
  {
    map k | k in nodes :: if 1 <= k <= upTo then nodes[k].(status := if k == self then Online else Offline) else nodes[k]
  }

  /**
   * One heartbeat reset over ids 1..|nodes|: the own id becomes "Online",
   * every other visited id "Offline", and only statuses change. Ids outside
   * 1..|nodes| (a directory whose ids are not 1..n) are never visited.
   */
  function Heartbeat(nodes: map<int, NodeInfo>, self: int): (r: map<int, NodeInfo>)
    ensures r.Keys == nodes.Keys
  {
    HeartbeatUpTo(nodes, self, |nodes|)
  }

  /** What a heartbeat reset leaves in the directory. */
  lemma HeartbeatStatuses(nodes: map<int, NodeInfo>, self: int)
    ensures var r := Heartbeat(nodes, self);
      && (forall k :: k in nodes ==> r[k] == nodes[k].(status := r[k].status))
      && (self in nodes && 1 <= self <= |nodes| ==> r[self].status == Online)
      && (forall k :: k in nodes && k != self && 1 <= k <= |nodes| ==> r[k].status == Offline)
      && (forall k :: k in nodes && !(1 <= k <= |nodes|) ==> r[k] == nodes[k])
  {
  }

  /** Visiting one more id is one `setNodeStatus`. */
  lemma HeartbeatStep(nodes: map<int, NodeInfo>, self: int, upTo: int)
    requires 0 <= upTo
    ensures HeartbeatUpTo(nodes, self, upTo + 1) ==
              WithStatus(HeartbeatUpTo(nodes, self, upTo), upTo + 1, if upTo + 1 == self then Online else Offline)
  {
    var a := HeartbeatUpTo(nodes, self, upTo + 1);
    var c := WithStatus(HeartbeatUpTo(nodes, self, upTo), upTo + 1, if upTo + 1 == self then Online else Offline);
    assert a.Keys == c.Keys;
    forall k | k in a ensures a[k] == c[k] {
    }
  }

  /**
   * With the usual directory (ids exactly 1..n), a heartbeat leaves the own
   * node "Online" and every other node "Offline", until packets arrive.
   */
  lemma HeartbeatContiguous(nodes: map<int, NodeInfo>, self: int, n: int)
    requires forall k :: k in nodes <==> 1 <= k <= n
    requires 1 <= self <= n
    ensures forall k :: k in nodes ==> (Heartbeat(nodes, self)[k].status == Online <==> k == self)
  {
    assert nodes.Keys == IdRange(n);
    HeartbeatStatuses(nodes, self);
  }

  /** The ids 1..n. */
  function IdRange(n: int): (r: set<int>)
    ensures forall k :: k in r <==> 1 <= k <= n
    ensures |r| == if n < 0 then 0 else n
    decreases n
  {
    if n <= 0 then {} else IdRange(n - 1) + {n}
  }

  // ---------------------------------------------------------------------------
  // Send round
  // ---------------------------------------------------------------------------

  /** The packet a peer sends: version 0, its own id, its files joined with ','. */
  function PeerAnnouncement(self: int, files: seq<string>): (p: Packet)
    ensures p.version == 0 && p.nodeId == self && p.dataLength == |p.data|
    ensures p.data == Join(',', files)
    ensures p.dataLength > 0 <==> files != [] && files != [""]
  {
    JoinEmpty(',', files);
    var fileList := Join(',', files);
    Packet(0, self, |fileList|, fileList)
  }

  /**
   * A receiving peer stores the sender's file list exactly when that list
   * survives the join-then-split, and marks the sender Online whatever the
   * payload.
   */
  lemma PeerAnnouncementApplied(nodes: map<int, NodeInfo>, self: int, files: seq<string>)
    requires self in nodes
    ensures var r := PeerApply(nodes, PeerAnnouncement(self, files));
      && r[self].status == Online
      && (r[self].files == files <==> Splittable(',', files))
      && (files == [] ==> r[self].files == [""])
  {
    SplitJoinExactly(',', files);
    SplitJoinEmpty(',');
  }

  /** One datagram of a send round. */
  datatype Send = Send(to: int, ip: string, port: int, packet: Packet)

  /**
   * How a round ends: every id visited; a resolve or send to `at` threw an
   * I/O exception, which abandons the rest of the round; or a lookup of an
   * absent id threw `NullPointerException`, which ends the sender thread.
   */
  datatype RoundEnd = Finished | Aborted(at: int) | Crashed(at: int)

  datatype Round = Round(sends: seq<Send>, end: RoundEnd)

  ghost predicate Sent(sends: seq<Send>, id: int) {
    exists j :: 0 <= j < |sends| && sends[j].to == id
  }

  /** The rest of a send round, from id `from` to `n`; sends to the ids in `failing` throw. */
  function PeerRound(nodes: map<int, NodeInfo>, self: int, failing: set<int>, from: int, n: int): (r: Round)
    ensures |r.sends| <= if from > n then 0 else n - from + 1
    decreases n - from
  {
    if from > n then Round([], Finished)
    else if from == self then PeerRound(nodes, self, failing, from + 1, n)
    else if self !in nodes || from !in nodes then Round([], Crashed(from))
    else if from in failing then Round([], Aborted(from))
    else
      var rest := PeerRound(nodes, self, failing, from + 1, n);
      Round([Send(from, nodes[from].ip, nodes[from].port, PeerAnnouncement(self, nodes[self].files))] + rest.sends, rest.end)
  }

  /** The send a round makes to a present id `to`. */
  ghost predicate SendTo(nodes: map<int, NodeInfo>, self: int, s: Send) {
    && s.to in nodes && self in nodes
    && s == Send(s.to, nodes[s.to].ip, nodes[s.to].port, PeerAnnouncement(self, nodes[self].files))
  }

  /**
   * Every send of a round goes to a present id in from..n other than the own
   * one and not failing, at that node's address and with the own files, in
   * strictly ascending id order; a round that stops early stops at an id
   * above every id it has sent to.
   */
  lemma {:induction false} PeerRoundSends(nodes: map<int, NodeInfo>, self: int, failing: set<int>, from: int, n: int)
    ensures var r := PeerRound(nodes, self, failing, from, n);
      && (forall j :: 0 <= j < |r.sends| ==>
            from <= r.sends[j].to <= n && r.sends[j].to != self && r.sends[j].to !in failing && SendTo(nodes, self, r.sends[j]))
      && (forall j, j' :: 0 <= j < j' < |r.sends| ==> r.sends[j].to < r.sends[j'].to)
      && (r.end.Aborted? ==>
            from <= r.end.at <= n && r.end.at != self && r.end.at in nodes && r.end.at in failing &&
            forall j :: 0 <= j < |r.sends| ==> r.sends[j].to < r.end.at)
      && (r.end.Crashed? ==>
            from <= r.end.at <= n && r.end.at != self && (self !in nodes || r.end.at !in nodes) &&
            forall j :: 0 <= j < |r.sends| ==> r.sends[j].to < r.end.at)
    decreases n - from
  {
    if from <= n && (from == self || (self in nodes && from in nodes && from !in failing)) {
      PeerRoundSends(nodes, self, failing, from + 1, n);
    }
  }

  /** A round that finishes has sent to every id in from..n but the own one. */
  lemma {:induction false} PeerRoundFinished(nodes: map<int, NodeInfo>, self: int, failing: set<int>, from: int, n: int)
    requires PeerRound(nodes, self, failing, from, n).end.Finished?
    ensures forall i :: from <= i <= n && i != self ==> Sent(PeerRound(nodes, self, failing, from, n).sends, i)
    decreases n - from
  {
    if from <= n {
      var rest := PeerRound(nodes, self, failing, from + 1, n);
      PeerRoundFinished(nodes, self, failing, from + 1, n);
      var sends := PeerRound(nodes, self, failing, from, n).sends;
      if from != self {
        assert sends == [sends[0]] + rest.sends;
        assert sends[0].to == from;
        forall i | from < i <= n && i != self ensures Sent(sends, i) {
          assert Sent(rest.sends, i);
          var j :| 0 <= j < |rest.sends| && rest.sends[j].to == i;
          assert sends[j + 1].to == i;
        }
      }
    }
  }

  /**
   * With the usual directory (ids exactly 1..n, the own id among them) and
   * no failures, a round reaches every other peer once, in ascending order,
   * with the own files.
   */
  lemma RoundReachesEveryPeer(nodes: map<int, NodeInfo>, self: int, n: int)
    requires forall k :: k in nodes <==> 1 <= k <= n
    requires 1 <= self <= n
    ensures PeerRound(nodes, self, {}, 1, n).end == Finished
    ensures forall i :: Sent(PeerRound(nodes, self, {}, 1, n).sends, i) <==> 1 <= i <= n && i != self
  {
    var r := PeerRound(nodes, self, {}, 1, n);
    PeerRoundSends(nodes, self, {}, 1, n);
    PeerRoundFinished(nodes, self, {}, 1, n);
  }

  lemma SameKeysSameSize(a: map<int, NodeInfo>, b: map<int, NodeInfo>)
    requires a.Keys == b.Keys
    ensures |a| == |b|
  {
    assert |a| == |a.Keys| && |b| == |b.Keys|;
  }

  // ---------------------------------------------------------------------------
  // The peer's state and its loop bodies
  // ---------------------------------------------------------------------------

  class Peer {
    const nodeId: int
    const config: ConfigLoader

    /** `new UDPPeer(nodeId, nodeInfo)`: the peer loads its own copy of the directory. */
    constructor (lines: seq<string>, nodeId: int)
      ensures this.nodeId == nodeId && fresh(config) && config.nodes == Load(ParseLine, map[], lines)
    {
      this.nodeId := nodeId;
      config := new ConfigLoader(lines);
    }

    /**
     * One turn of the listener loop. A datagram that does not deserialise,
     * or whose object is not a `Packet` (the cast throws), ends the listener.
     */
    method OnPacket(received: Received) returns (listening: bool)
      modifies config
      ensures listening <==> received.Decoded? && received.obj.PacketObject?
      ensures listening ==> config.nodes == PeerApply(old(config.nodes), received.obj.packet)
      ensures !listening ==> config.nodes == old(config.nodes)
    {
      if received.Undecodable? || !received.obj.PacketObject? {
        return false;
      }
      var packet := received.obj.packet;
      config.SetNodeStatus(packet.nodeId, Online);
      config.SetNodeFiles(packet.nodeId, Split(packet.data, ','));
      listening := true;
    }

    /** The heartbeat's reset loop over ids 1..size. */
    method HeartbeatReset()
      modifies config
      ensures config.nodes == Heartbeat(old(config.nodes), nodeId)
    {
      ghost var start := config.nodes;
      var i := 1;
      while i <= |config.nodes|
        invariant 1 <= i <= |start| + 1
        invariant config.nodes == HeartbeatUpTo(start, nodeId, i - 1)
      {
        SameKeysSameSize(config.nodes, start);
        HeartbeatStep(start, nodeId, i - 1);
        ghost var next := HeartbeatUpTo(start, nodeId, i);
        if i != nodeId {
          assert next == WithStatus(config.nodes, i, Offline);
          config.SetNodeStatus(i, Offline);
        } else {
          assert next == WithStatus(config.nodes, i, Online);
          config.SetNodeStatus(i, Online);
        }
        assert config.nodes == next;
        i := i + 1;
      }
      SameKeysSameSize(config.nodes, start);
    }

    /**
     * The heartbeat's report after its sleep: the status of every id
     * 1..size, or `None` when one of them is absent and the lookup throws
     * `NullPointerException`, which ends the heartbeat thread.
     */
    method HeartbeatReport() returns (statuses: Option<seq<string>>)
      ensures statuses.Some? <==> forall k :: 1 <= k <= |config.nodes| ==> k in config.nodes
      ensures statuses.Some? ==>
                && |statuses.value| == |config.nodes|
                && forall k :: 1 <= k <= |config.nodes| ==> statuses.value[k - 1] == config.nodes[k].status
    {
      var nodes := config.GetNodes();
      var shown: seq<string> := [];
      var i := 1;
      while i <= |nodes|
        invariant 1 <= i <= |nodes| + 1
        invariant |shown| == i - 1
        invariant forall k :: 1 <= k < i ==> k in nodes && shown[k - 1] == nodes[k].status
      {
        if i !in nodes {
          return None;
        }
        shown := shown + [nodes[i].status];
        i := i + 1;
      }
      statuses := Some(shown);
    }

    /**
     * One send round: the for-loop over ids 1..size. `failing` are the ids
     * whose resolve or send throws.
     */
    method SendRound(failing: set<int>) returns (sends: seq<Send>, end: RoundEnd)
      ensures Round(sends, end) == PeerRound(config.nodes, nodeId, failing, 1, |config.nodes|)
    {
      var nodes := config.GetNodes();
      var n := |nodes|;
      sends := [];
      var i := 1;
      while i <= n
        invariant 1 <= i <= n + 1
        invariant PeerRound(nodes, nodeId, failing, 1, n) ==
                    Round(sends + PeerRound(nodes, nodeId, failing, i, n).sends, PeerRound(nodes, nodeId, failing, i, n).end)
      {
        ghost var rest := PeerRound(nodes, nodeId, failing, i + 1, n);
        if i != nodeId {
          if nodeId !in nodes || i !in nodes {
            assert PeerRound(nodes, nodeId, failing, i, n) == Round([], Crashed(i));
            return sends, Crashed(i);
          }
          var version: Byte := 0;
          var fileList := Join(',', nodes[nodeId].files);
          var dataLength := |fileList|;
          var packet := Packet(version, nodeId, dataLength, fileList);
          if i in failing {
            assert PeerRound(nodes, nodeId, failing, i, n) == Round([], Aborted(i));
            return sends, Aborted(i);
          }
          var send := Send(i, nodes[i].ip, nodes[i].port, packet);
          assert PeerRound(nodes, nodeId, failing, i, n) == Round([send] + rest.sends, rest.end);
          assert sends + ([send] + rest.sends) == (sends + [send]) + rest.sends;
          sends := sends + [send];
        } else {
          assert PeerRound(nodes, nodeId, failing, i, n) == rest;
        }
        i := i + 1;
      }
      end := Finished;
    }
  }
}
