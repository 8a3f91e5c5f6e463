/**
 * The serialisable `Packet` records and the shapes a listener can get back
 * from `ObjectInputStream.readObject`.
 *
 * The record is immutable on the wire: every send serialises a fresh copy and
 * every receive deserialises a new one, so the Java setters are modelled as
 * functional updates that overwrite exactly one field.
 */
module Packets {

  /** A Java `byte`. */
  type Byte = b: int | -128 <= b <= 127

  /**
   * `Packet` of Server/Packet.java and Peer/Packet.java (the two files declare
   * the same record). The constructor stores its four arguments verbatim and
   * does not check `dataLength` against the length of `data`; the getters are
   * the field selectors.
   */
  datatype Packet = Packet(version: Byte, nodeId: int, dataLength: int, data: string)
  {
    /** `setVersion`. */
    function WithVersion(v: Byte): (p: Packet)
      ensures p.version == v
      ensures p.nodeId == nodeId && p.dataLength == dataLength && p.data == data
    {
      this.(version := v)
    }

    /** `setNodeId`. */
    function WithNodeId(id: int): (p: Packet)
      ensures p.nodeId == id
      ensures p.version == version && p.dataLength == dataLength && p.data == data
    {
      this.(nodeId := id)
    }

    /** `setDataLength`: no check against `data`. */
    function WithDataLength(n: int): (p: Packet)
      ensures p.dataLength == n
      ensures p.version == version && p.nodeId == nodeId && p.data == data
    {
      this.(dataLength := n)
    }

    /** `setData`: `dataLength` keeps its old value, whatever the new length. */
    function WithData(d: string): (p: Packet)
      ensures p.data == d
      ensures p.version == version && p.nodeId == nodeId && p.dataLength == dataLength
    {
      this.(data := d)
    }
  }

  /** The record does not tie `dataLength` to `data`: both stay as stored. */
  lemma PacketLengthUnchecked(data: string)
    ensures Packet(1, 1, |data| + 1, data).dataLength != |Packet(1, 1, |data| + 1, data).data|
    ensures Packet(1, 1, 7, "").WithData(data).dataLength == 7
  {
  }

  /** Setters on different fields commute; a second setter on the same field wins. */
  lemma PacketSettersIndependent(p: Packet, v: Byte, id: int, n: int, d: string, d2: string)
    ensures p.WithVersion(v).WithData(d) == p.WithData(d).WithVersion(v)
    ensures p.WithNodeId(id).WithDataLength(n) == p.WithDataLength(n).WithNodeId(id)
    ensures p.WithData(d).WithData(d2) == p.WithData(d2)
  {
  }

  /**
   * The older `Packet` of Packet.java: an `on_off` flag instead of a length
   * field, so any `data` is accepted with nothing to check it against.
   */
  datatype LegacyPacket = LegacyPacket(version: Byte, nodeId: int, onOff: bool, data: string)
  {
    /** `setVersion`. */
    function WithVersion(v: Byte): (p: LegacyPacket)
      ensures p.version == v
      ensures p.nodeId == nodeId && p.onOff == onOff && p.data == data
    {
      this.(version := v)
    }

    /** `setNodeId`. */
    function WithNodeId(id: int): (p: LegacyPacket)
      ensures p.nodeId == id
      ensures p.version == version && p.onOff == onOff && p.data == data
    {
      this.(nodeId := id)
    }

    /** `setOn_off`. */
    function WithOnOff(b: bool): (p: LegacyPacket)
      ensures p.onOff == b
      ensures p.version == version && p.nodeId == nodeId && p.data == data
    {
      this.(onOff := b)
    }

    /** `setData`. */
    function WithData(d: string): (p: LegacyPacket)
      ensures p.data == d
      ensures p.version == version && p.nodeId == nodeId && p.onOff == onOff
    {
      this.(data := d)
    }
  }

  /** What a successful `readObject` can hand to a listener. */
  datatype Object =
    | PacketObject(packet: Packet)
    | ListObject(items: seq<Object>)
    | OtherObject

  /** A datagram either deserialises to an object or makes `readObject` throw. */
  datatype Received = Undecodable | Decoded(obj: Object)

  /** The object a sender hands to `ObjectOutputStream` for a `List<Packet>`. */
  function PacketList(packets: seq<Packet>): (items: seq<Object>)
    ensures |items| == |packets|
    ensures forall i :: 0 <= i < |items| ==> items[i] == PacketObject(packets[i])
  {
    seq(|packets|, i requires 0 <= i < |packets| => PacketObject(packets[i]))
  }
}
