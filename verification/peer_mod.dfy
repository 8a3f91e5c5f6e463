/**
 * The ping/ack peer of UDPPeerMod.java. It reads the older directory
 * (ConfigLoader.java: id, ip, port), listens on port 9876, marks the first
 * configured node whose address matches a datagram's sender as active,
 * answers every datagram but "THEEND" with "ACK from 9876", and
 * periodically sends "PING from <port>" to every configured node.
 *
 * The listener receives into one 1024-byte buffer that is reused for every
 * datagram and decodes the whole buffer, not just the received bytes; the
 * model keeps that buffer as an array so that what is left of an earlier,
 * longer datagram stays part of the next message. Bytes are modelled as
 * chars, one per byte.
 */
module PeerMod {
  import opened JavaText
  import opened ConfigLines
  import opened LegacyDirectory

  const ListenPort: int := 9876
  const BufferSize: int := 1024
  const EndMessage: string := "THEEND"

  /** `order` lists every key of the map once: the order a `HashMap` hands its entries out in. */
  predicate Enumerates(order: seq<int>, keys: set<int>) {
    && (forall i :: 0 <= i < |order| ==> order[i] in keys)
    && (forall k :: k in keys ==> k in order)
    && (forall i, j :: 0 <= i < j < |order| ==> order[i] != order[j])
  }

  /** The index of the first element of `order` that lies in `s`, or `|order|` when none does. */
  function FirstIn(order: seq<int>, s: set<int>): (r: nat)
    ensures r <= |order|
    ensures r < |order| ==> order[r] in s
    ensures forall i :: 0 <= i < r ==> order[i] !in s
    decreases |order|
  {
    if order == [] || order[0] in s then 0 else 1 + FirstIn(order[1..], s)
  }

  // ---------------------------------------------------------------------------
  // Listener
  // ---------------------------------------------------------------------------

  /** The buffer after a datagram has been received into it: the datagram (cut to the buffer's size) over the old contents. */
  function Overlay(buf: seq<char>, datagram: seq<char>): (r: seq<char>)
    requires |buf| == BufferSize
    ensures |r| == BufferSize
    ensures forall i :: 0 <= i < BufferSize ==> r[i] == if i < |datagram| then datagram[i] else buf[i]
  {
    var n := if |datagram| < BufferSize then |datagram| else BufferSize;
    datagram[..n] + buf[n..]
  }

  /** The configured nodes whose address is the sender's. */
  function Matching(nodes: map<int, Address>, ip: string, port: int): (r: set<int>)
    ensures forall k :: k in r <==> k in nodes && nodes[k] == Address(ip, port)
  {
    set k | k in nodes && nodes[k] == Address(ip, port)
  }

  /** `activeNodes` after the matching loop: the first match in iteration order becomes `true`, then the loop breaks. */
  function Marked(active: map<int, bool>, nodes: map<int, Address>, order: seq<int>, ip: string, port: int): (r: map<int, bool>)
    ensures active.Keys <= r.Keys
    ensures forall k :: k in r && (k !in active || r[k] != active[k]) ==> k in Matching(nodes, ip, port) && r[k]
  {
    var i := FirstIn(order, Matching(nodes, ip, port));
    if i < |order| then active[order[i] := true] else active
  }

  /**
   * Marking never clears a flag, changes at most one entry, adds no key
   * beyond the configured ones, and changes nothing for a sender whose
   * address is not configured.
   */
  lemma MarkedOnlyRaises(active: map<int, bool>, nodes: map<int, Address>, order: seq<int>, ip: string, port: int)
    requires Enumerates(order, nodes.Keys)
    ensures var m := Marked(active, nodes, order, ip, port);
      && active.Keys <= m.Keys <= active.Keys + nodes.Keys
      && (forall k :: k in active && active[k] ==> m[k])
      && (forall k, k' :: k in m && k' in m && (k !in active || m[k] != active[k]) && (k' !in active || m[k'] != active[k']) ==> k == k')
      && (Matching(nodes, ip, port) == {} ==> m == active)
  {
  }

  /** When exactly one configured node has the sender's address, that node is marked whatever the iteration order. */
  lemma MarkedUniqueAddress(active: map<int, bool>, nodes: map<int, Address>, order: seq<int>, k: int)
    requires Enumerates(order, nodes.Keys)
    requires k in nodes && forall j :: j in nodes && nodes[j] == nodes[k] ==> j == k
    ensures Marked(active, nodes, order, nodes[k].ip, nodes[k].port) == active[k := true]
  {
    var m := Matching(nodes, nodes[k].ip, nodes[k].port);
    assert forall j :: j in m <==> j == k;
    assert m == {k};
    var i :| 0 <= i < |order| && order[i] == k;
    assert FirstIn(order, m) <= i;
  }

  /** A set with no members is the empty set. */
  lemma NoneMeansEmpty(m: set<int>)
    ensures (forall k :: k !in m) ==> m == {}
  {
    if forall k :: k !in m {
      assert m == {};
    }
  }

  /**
   * When several configured nodes share the sender's address, the one the
   * iteration order meets first is marked, and no other.
   */
  lemma MarkedFirstMatch(active: map<int, bool>, nodes: map<int, Address>, order: seq<int>, ip: string, port: int)
    requires Enumerates(order, nodes.Keys) && Matching(nodes, ip, port) != {}
    ensures exists i :: 0 <= i < |order| && order[i] in Matching(nodes, ip, port)
              && (forall j :: 0 <= j < i ==> order[j] !in Matching(nodes, ip, port))
              && Marked(active, nodes, order, ip, port) == active[order[i] := true]
  {
    var m := Matching(nodes, ip, port);
    NoneMeansEmpty(m);
    var k :| k in m;
    var at :| 0 <= at < |order| && order[at] == k;
    var i := FirstIn(order, m);
    assert i <= at;
    assert Marked(active, nodes, order, ip, port) == active[order[i] := true];
    assert order[i] in m && forall j :: 0 <= j < i ==> order[j] !in m;
  }

  /**
   * The reused buffer at work: after "PING from 9876" (say) has filled the
   * start of an otherwise blank buffer, a later "THEEND" is read as
   * "THEENDrom 9876", so it does not stop the listener.
   */
  lemma StaleBufferHidesEnd(buf: seq<char>)
    requires |buf| == BufferSize
    requires buf[..14] == "PING from 9876"
    requires Blank(buf[14..])
    ensures Trim(Overlay(buf, EndMessage)) == "THEENDrom 9876"
    ensures Trim(Overlay(buf, EndMessage)) != EndMessage
  {
    var s := Overlay(buf, EndMessage);
    assert s == "THEENDrom 9876" + buf[14..];
    TrimUnique([], "THEENDrom 9876", buf[14..]);
    assert [] + "THEENDrom 9876" + buf[14..] == s;
  }

  /**
   * In general "THEEND" is recognised only when nothing visible is left in
   * the buffer after its sixth byte: one non-blank stale byte anywhere
   * beyond it keeps the listener running.
   */
  lemma StaleByteHidesEnd(buf: seq<char>, p: int)
    requires |buf| == BufferSize
    requires 6 <= p < BufferSize && !IsTrimmable(buf[p])
    ensures Trim(Overlay(buf, EndMessage)) != EndMessage
  {
    var s := Overlay(buf, EndMessage);
    TrimReaches(s, p);
  }

  /** On a blank buffer (the listener's first datagram, say) the message is the datagram, trimmed. */
  lemma BlankBufferMessage(buf: seq<char>, datagram: seq<char>)
    requires |buf| == BufferSize && |datagram| <= BufferSize
    requires Blank(buf)
    ensures Trim(Overlay(buf, datagram)) == Trim(datagram)
  {
    assert Overlay(buf, datagram) == datagram + buf[|datagram|..];
    assert forall k :: 0 <= k < |buf| - |datagram| ==> buf[|datagram|..][k] == buf[|datagram| + k];
    TrimPadded(datagram, buf[|datagram|..]);
  }

  // ---------------------------------------------------------------------------
  // Pings
  // ---------------------------------------------------------------------------

  /** `socket.getLocalPort()`: the bound port while open, -1 once closed. */
  function LocalPort(closed: bool): (port: int)
    ensures closed <==> port < 0
  {
    if closed then -1 else ListenPort
  }

  function PingMessage(localPort: int): string {
    "PING from " + IntToString(localPort)
  }

  function AckMessage(): string {
    "ACK from " + IntToString(ListenPort)
  }

  /** A ping or an acknowledgement carries a port number that `parseInt` reads back. */
  lemma MessagesNamePort(closed: bool)
    ensures PingMessage(LocalPort(closed))[..10] == "PING from "
    ensures ParseInt(PingMessage(LocalPort(closed))[10..]) == Some(LocalPort(closed))
    ensures AckMessage()[..9] == "ACK from "
    ensures ParseInt(AckMessage()[9..]) == Some(ListenPort)
  {
    ParseIntOfIntToString(LocalPort(closed));
    ParseIntOfIntToString(ListenPort);
    assert PingMessage(LocalPort(closed))[10..] == IntToString(LocalPort(closed));
    assert AckMessage()[9..] == IntToString(ListenPort);
  }

  datatype Ping = Ping(to: int, ip: string, port: int, message: string)

  /** Every entry pinged; an I/O exception at `at` abandoning the rest; or a null socket ending the ping thread. */
  datatype PingEnd = AllSent | Aborted(at: int) | Crashed

  lemma NonEmptyHasElement(s: set<int>)
    requires s != {}
    ensures exists x :: x in s
  {
    if forall y :: y !in s {
      assert false;
    }
  }

  /** The constructor's loop over the key set: `put(nodeId, false)` for every configured id. */
  method AllInactive(keys: set<int>) returns (active: map<int, bool>)
    ensures active.Keys == keys
    ensures forall k :: k in active ==> !active[k]
  {
    active := map[];
    var rest := keys;
    while rest != {}
      invariant rest <= keys
      invariant active.Keys == keys - rest
      invariant forall k :: k in active ==> !active[k]
      decreases rest
    {
      NonEmptyHasElement(rest);
      var nodeId :| nodeId in rest;
      active := active[nodeId := false];
      rest := rest - {nodeId};
    }
  }

  // ---------------------------------------------------------------------------
  // The peer's state
  // ---------------------------------------------------------------------------

  class PeerMod {
    const config: ConfigLoader
    /** Whether `new DatagramSocket(9876)` succeeded; if not, the socket stays null. */
    const bound: bool
    /** The listener's receive buffer, reused for every datagram. */
    const buffer: array<char>
    var activeNodes: map<int, bool>
    var closed: bool

    predicate Valid() {
      buffer.Length == BufferSize
    }

    /**
     * `new UDPPeerMod()`: load the directory, bind port 9876 and mark every
     * configured node inactive. A failed bind is caught, so no node is
     * marked at all. The buffer starts out all NUL bytes.
     */
    constructor (lines: seq<string>, bindSucceeds: bool)
      ensures Valid() && fresh(config) && fresh(buffer)
      ensures config.nodes == Load(ParseLine, map[], lines)
      ensures bound == bindSucceeds && !closed
      ensures activeNodes.Keys == (if bindSucceeds then config.nodes.Keys else {})
      ensures forall k :: k in activeNodes ==> !activeNodes[k]
      ensures forall j :: 0 <= j < BufferSize ==> buffer[j] == '\0'
    {
      var loader := new ConfigLoader(lines);
      var active: map<int, bool> := map[];
      if bindSucceeds {
        active := AllInactive(loader.GetNodes().Keys);
      }
      config := loader;
      bound := bindSucceeds;
      closed := false;
      activeNodes := active;
      buffer := new char[BufferSize](_ => '\0');
    }

    /** `socket.receive` into the reused buffer: the datagram's bytes, cut to the buffer's size, over what was there. */
    method ReceiveInto(datagram: seq<char>)
      requires Valid()
      modifies buffer
      ensures buffer[..] == Overlay(old(buffer[..]), datagram)
    {
      var n := if |datagram| < BufferSize then |datagram| else BufferSize;
      var i := 0;
      while i < n
        invariant 0 <= i <= n
        invariant forall j :: 0 <= j < i ==> buffer[j] == datagram[j]
        invariant forall j :: i <= j < BufferSize ==> buffer[j] == old(buffer[j])
      {
        buffer[i] := datagram[i];
        i := i + 1;
      }
    }

    /** The matching loop over the configured nodes, with its `break` after the first match. */
    method MarkSender(senderIp: string, senderPort: int, order: seq<int>)
      requires Enumerates(order, config.nodes.Keys)
      modifies this
      ensures activeNodes == Marked(old(activeNodes), config.nodes, order, senderIp, senderPort)
      ensures closed == old(closed)
    {
      ghost var matching := Matching(config.nodes, senderIp, senderPort);
      var i := 0;
      while i < |order|
        invariant 0 <= i <= |order|
        invariant forall j :: 0 <= j < i ==> order[j] !in matching
        invariant activeNodes == old(activeNodes)
      {
        var info := config.nodes[order[i]];
        if info.ip == senderIp && info.port == senderPort {
          assert FirstIn(order, matching) == i;
          activeNodes := activeNodes[order[i] := true];
          return;
        }
        i := i + 1;
      }
    }

    /**
     * One turn of the listener loop: receive `datagram` from
     * `senderIp:senderPort`, mark the first matching configured node (in the
     * map's iteration `order`), then close and stop on "THEEND" or reply
     * with an acknowledgement. With no socket, or a closed one, the receive
     * throws and the listener ends with nothing changed. A failing send of
     * the acknowledgement (`replyFails`) is caught outside the loop, so it
     * too ends the listener, with the socket left open.
     */
    method OnDatagram(datagram: seq<char>, senderIp: string, senderPort: int, order: seq<int>, replyFails: bool)
      returns (reply: Option<string>, listening: bool)
      requires Valid() && Enumerates(order, config.nodes.Keys)
      modifies this, buffer
      ensures !bound || old(closed) ==>
                && reply == None && !listening && closed == old(closed)
                && activeNodes == old(activeNodes) && buffer[..] == old(buffer[..])
      ensures bound && !old(closed) ==>
                && buffer[..] == Overlay(old(buffer[..]), datagram)
                && activeNodes == Marked(old(activeNodes), config.nodes, order, senderIp, senderPort)
                && (Trim(buffer[..]) == EndMessage ==> closed && reply == None && !listening)
                && (Trim(buffer[..]) != EndMessage ==>
                      && !closed && listening == !replyFails
                      && reply == if replyFails then None else Some(AckMessage()))
    {
      if !bound || closed {
        return None, false;
      }
      ReceiveInto(datagram);
      var message := Trim(buffer[..]);
      MarkSender(senderIp, senderPort, order);

      if message == EndMessage {
        closed := true;
        return None, false;
      }
      var ack := "ACK from " + IntToString(ListenPort);
      if replyFails {
        return None, false;
      }
      reply := Some(ack);
      listening := true;
    }

    /**
     * `pingNodes`: one "PING from <local port>" to every configured node,
     * the own entry included, in iteration `order`. The ids in `failing`
     * throw on resolve or send, which abandons the rest; with no socket the
     * first message cannot be built and the thread ends. After "THEEND" the
     * local port reads -1.
     */
    method PingNodes(order: seq<int>, failing: set<int>) returns (pings: seq<Ping>, end: PingEnd)
      requires Valid() && Enumerates(order, config.nodes.Keys)
      ensures !bound ==> pings == [] && end == (if order == [] then AllSent else Crashed)
      ensures bound ==>
                && |pings| == FirstIn(order, failing)
                && (forall j :: 0 <= j < |pings| ==>
                      pings[j] == Ping(order[j], config.nodes[order[j]].ip, config.nodes[order[j]].port, PingMessage(LocalPort(closed))))
                && end == if |pings| < |order| then Aborted(order[|pings|]) else AllSent
    {
      pings := [];
      var i := 0;
      while i < |order|
        invariant 0 <= i <= |order|
        invariant forall j :: 0 <= j < i ==> order[j] !in failing
        invariant bound || i == 0
        invariant |pings| == i
        invariant forall j :: 0 <= j < i ==>
                    pings[j] == Ping(order[j], config.nodes[order[j]].ip, config.nodes[order[j]].port, PingMessage(LocalPort(closed)))
      {
        var info := config.nodes[order[i]];
        if !bound {
          return pings, Crashed;
        }
        var message := "PING from " + IntToString(if closed then -1 else ListenPort);
        if order[i] in failing {
          assert FirstIn(order, failing) == i;
          return pings, Aborted(order[i]);
        }
        pings := pings + [Ping(order[i], info.ip, info.port, message)];
        i := i + 1;
      }
      end := AllSent;
    }
  }

  /** With no failures, a ping round reaches every configured node exactly once. */
  lemma PingsReachEveryNode(nodes: map<int, Address>, order: seq<int>, pings: seq<Ping>, closed: bool)
    requires Enumerates(order, nodes.Keys)
    requires |pings| == |order|
    requires forall j :: 0 <= j < |pings| ==>
               pings[j] == Ping(order[j], nodes[order[j]].ip, nodes[order[j]].port, PingMessage(LocalPort(closed)))
    ensures forall k :: k in nodes <==> exists j :: 0 <= j < |pings| && pings[j].to == k
    ensures forall j, j' :: 0 <= j < j' < |pings| ==> pings[j].to != pings[j'].to
  {
    forall k | k in nodes ensures exists j :: 0 <= j < |pings| && pings[j].to == k {
      var j :| 0 <= j < |order| && order[j] == k;
      assert pings[j].to == k;
    }
  }
}
