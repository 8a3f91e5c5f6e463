/**
 * The client node of Client/UDPClient2.java and its older copy
 * UDPClient2.java. Its sender thread announces the node's own file list to
 * the coordinator; its receiver thread accepts the coordinator's snapshot
 * `List<Packet>` and decodes every entry's "status|files" payload.
 * Everything here is a value computation; the sockets, threads and
 * printing around it are not modelled.
 */
module Client {
  import opened JavaText
  import opened Packets
  import opened Directory

  /** `serverPort`. */
  const ServerPort: int := 9876
  /** The directory entry that names the coordinator. */
  const ServerNodeId: int := 6
  /** UDPClient2.java sends to this address whatever the directory says. */
  const LegacyServerIp: string := "192.168.56.1"
  const UnknownStatus: string := "Unknown"
  const NoFiles: string := "No files"

  // ---------------------------------------------------------------------------
  // Sender
  // ---------------------------------------------------------------------------

  /**
   * The packet of one sender round: version 1, the own id, the file names
   * joined with ',' and that text's length. The payload is empty exactly
   * when there are no files or the one file name is empty.
   */
  function Announcement(nodeId: int, files: seq<string>): (p: Packet)
    ensures p.version == 1 && p.nodeId == nodeId && p.dataLength == |p.data|
    ensures p.data == Join(',', files)
    ensures p.dataLength > 0 <==> files != [] && files != [""]
  {
    JoinEmpty(',', files);
    var fileList := Join(',', files);
    Packet(1, nodeId, |fileList|, fileList)
  }

  // ---------------------------------------------------------------------------
  // Receiver
  // ---------------------------------------------------------------------------

  /** One line of the receiver's printout. */
  datatype Entry = Entry(nodeId: int, status: string, files: string)

  /**
   * `split("\\|", 2)` and the two conditionals: with a '|' the payload is
   * cut at its first '|'; without one the status is "Unknown" and the files
   * "No files".
   */
  function DecodeEntry(p: Packet): (e: Entry)
    ensures e.nodeId == p.nodeId
    ensures '|' in p.data ==> p.data == e.status + "|" + e.files && '|' !in e.status
    ensures '|' !in p.data ==> e.status == UnknownStatus && e.files == NoFiles
  {
    var parts := SplitFirst(p.data, '|');
    var status := if |parts| > 1 then parts[0] else UnknownStatus;
    var files := if |parts| > 1 then parts[1] else NoFiles;
    Entry(p.nodeId, status, files)
  }

  /** Decoding `status + "|" + files` gives back that status and those files whenever the status has no '|'. */
  lemma DecodeEntryRoundTrip(v: Byte, id: int, len: int, status: string, files: string)
    requires '|' !in status
    ensures DecodeEntry(Packet(v, id, len, status + "|" + files)) == Entry(id, status, files)
  {
    SplitFirstJoined(status, '|', files);
  }

  /** A payload ending in its only '|' (such as "Offline|") decodes to files "", not "No files". */
  lemma TrailingBarKeepsEmptyFiles(v: Byte, id: int, len: int, status: string)
    requires '|' !in status
    ensures DecodeEntry(Packet(v, id, len, status + "|")) == Entry(id, status, "")
  {
    DecodeEntryRoundTrip(v, id, len, status, "");
    assert status + "|" + "" == status + "|";
  }

  /** What the receiver makes of one datagram. */
  datatype Reception =
    | NotAList                      // "Invalid packet format received."
    | NotPackets                    // "List received but does not contain Packet objects."
    | Shown(entries: seq<Entry>)    // every element decoded and printed
    | Stopped(shown: seq<Entry>)    // the receiver thread ended, after printing `shown`

  /**
   * The for-each loop over a list whose first element passed the head test:
   * the unchecked cast fails on the first element that is not a `Packet`,
   * and that `ClassCastException` ends the receiver thread.
   */
  function DecodeItems(items: seq<Object>): (rc: Reception)
    ensures rc.Shown? || rc.Stopped?
    decreases |items|
  {
    if items == [] then Shown([])
    else if !items[0].PacketObject? then Stopped([])
    else
      var head := DecodeEntry(items[0].packet);
      match DecodeItems(items[1..])
      case Shown(rest) => Shown([head] + rest)
      case Stopped(rest) => Stopped([head] + rest)
  }

  /** The loop shows everything exactly when every element is a `Packet`. */
  lemma {:induction false} DecodeItemsShown(items: seq<Object>)
    ensures DecodeItems(items).Shown? <==> forall i :: 0 <= i < |items| ==> items[i].PacketObject?
    decreases |items|
  {
    if items != [] && items[0].PacketObject? {
      var rest := items[1..];
      DecodeItemsShown(rest);
      assert forall i :: 1 <= i < |items| ==> items[i] == rest[i - 1];
    }
  }

  /** When it shows everything, entry `i` is the decoding of element `i`. */
  lemma {:induction false} DecodeItemsEntries(items: seq<Object>)
    requires DecodeItems(items).Shown?
    ensures var es := DecodeItems(items).entries;
      && |es| == |items|
      && forall i :: 0 <= i < |items| ==> items[i].PacketObject? && es[i] == DecodeEntry(items[i].packet)
    decreases |items|
  {
    if items != [] {
      var rest := items[1..];
      DecodeItemsEntries(rest);
      var es := DecodeItems(rest).entries;
      assert DecodeItems(items).entries == [DecodeEntry(items[0].packet)] + es;
      assert forall i :: 1 <= i < |items| ==> items[i] == rest[i - 1];
    }
  }

  /**
   * When it stops, it has shown the decodings of the elements before the
   * first one that is not a `Packet`, and nothing after it.
   */
  lemma {:induction false} DecodeItemsStopped(items: seq<Object>)
    requires DecodeItems(items).Stopped?
    ensures var es := DecodeItems(items).shown;
      && |es| < |items|
      && !items[|es|].PacketObject?
      && forall i :: 0 <= i < |es| ==> items[i].PacketObject? && es[i] == DecodeEntry(items[i].packet)
    decreases |items|
  {
    if items[0].PacketObject? {
      var rest := items[1..];
      DecodeItemsStopped(rest);
      var es := DecodeItems(rest).shown;
      assert DecodeItems(items).shown == [DecodeEntry(items[0].packet)] + es;
      assert forall i :: 1 <= i < |items| ==> items[i] == rest[i - 1];
    }
  }

  /**
   * One turn of the receiver loop. A datagram that does not deserialise
   * throws out of the loop and ends the receiver thread; a non-List is reported; an
   * empty List or one whose first element is not a `Packet` is reported;
   * anything else is decoded entry by entry.
   */
  function Receive(r: Received): (rc: Reception)
    ensures r.Undecodable? ==> rc == Stopped([])
    ensures r.Decoded? && !r.obj.ListObject? ==> rc == NotAList
    ensures r.Decoded? && r.obj.ListObject? && (r.obj.items == [] || !r.obj.items[0].PacketObject?) ==> rc == NotPackets
    ensures rc.Shown? || rc.Stopped? ==> r.Undecodable? || (r.obj.ListObject? && r.obj.items != [] && r.obj.items[0].PacketObject?)
  {
    if r.Undecodable? then Stopped([])
    else if !r.obj.ListObject? then NotAList
    else if r.obj.items == [] || !r.obj.items[0].PacketObject? then NotPackets
    else DecodeItems(r.obj.items)
  }

  /**
   * A non-empty `List<Packet>`, such as the coordinator's snapshot, is shown
   * in full: one decoded entry per packet, in order.
   */
  lemma ReceivePackets(ps: seq<Packet>)
    requires ps != []
    ensures var rc := Receive(Decoded(ListObject(PacketList(ps))));
      && rc.Shown? && |rc.entries| == |ps|
      && forall i :: 0 <= i < |ps| ==> rc.entries[i] == DecodeEntry(ps[i])
  {
    var items := PacketList(ps);
    DecodeItemsShown(items);
    DecodeItemsEntries(items);
  }

  /**
   * A list holding a non-`Packet` after a `Packet` head ends the receiver,
   * after it has shown the entries of the packets before the first such element.
   */
  lemma ReceiveStops(items: seq<Object>)
    requires items != [] && items[0].PacketObject?
    requires exists i :: 0 <= i < |items| && !items[i].PacketObject?
    ensures var rc := Receive(Decoded(ListObject(items)));
      && rc.Stopped? && 1 <= |rc.shown| < |items|
      && !items[|rc.shown|].PacketObject?
      && forall i :: 0 <= i < |rc.shown| ==> items[i].PacketObject? && rc.shown[i] == DecodeEntry(items[i].packet)
  {
    DecodeItemsShown(items);
    DecodeItemsStopped(items);
  }

  // ---------------------------------------------------------------------------
  // Construction
  // ---------------------------------------------------------------------------

  /** What a constructed client holds: the port it binds and where it sends. */
  datatype Setup = Setup(bindPort: int, serverIp: string)

  /**
   * `new UDPClient2(nodeId, configLoader)` in Client/UDPClient2.java: the
   * own entry gives the port to bind and node 6 the coordinator's address;
   * if either is missing it throws `IllegalArgumentException` (`None`).
   */
  function ClientSetup(nodes: map<int, NodeInfo>, nodeId: int): (s: Option<Setup>)
    ensures s.Some? <==> nodeId in nodes && ServerNodeId in nodes
    ensures s.Some? ==> s.value.bindPort == nodes[nodeId].port && s.value.serverIp == nodes[ServerNodeId].ip
  {
    var nodeInfo := if nodeId in nodes then Some(nodes[nodeId]) else None;
    var serverNode := if ServerNodeId in nodes then Some(nodes[ServerNodeId]) else None;
    if nodeInfo.None? || serverNode.None? then None
    else Some(Setup(nodeInfo.value.port, serverNode.value.ip))
  }

  /**
   * UDPClient2.java: `main` stops before construction when the own entry is
   * missing; otherwise the client binds its own port and sends to the
   * hard-coded address, without looking at node 6.
   */
  function LegacyClientSetup(nodes: map<int, NodeInfo>, nodeId: int): (s: Option<Setup>)
    ensures s.Some? <==> nodeId in nodes
    ensures s.Some? ==> s.value.bindPort == nodes[nodeId].port && s.value.serverIp == LegacyServerIp
  {
    if nodeId !in nodes then None else Some(Setup(nodes[nodeId].port, LegacyServerIp))
  }
}
