/**
  The packet of the decoder (type HEP, src/decoder/decoder.go): the 14 fields that go over the wire, two
  names that only HEP3 knows, and the repaired time in nanoseconds since the Unix epoch.
  */
module HepStruct {
  import opened Octets
  import opened Protobuf

  datatype Fields = Fields(wire: Packet, protoString: Bytes, nodeName: Bytes)

  class Hep {
    var version: Word
    var protocol: Word
    var srcIP: Bytes
    var dstIP: Bytes
    var srcPort: Word
    var dstPort: Word
    var tsec: Word
    var tmsec: Word
    var protoType: Word
    var nodeID: Word
    var nodePW: Bytes
    var payload: Bytes
    var cid: Bytes
    var vlan: Word
    var protoString: Bytes
    var nodeName: Bytes
    var timestamp: int

    /** The zero value of the Go struct. */
    constructor ()
      ensures View() == Fields(Packet(0, 0, [], [], 0, 0, 0, 0, 0, 0, [], [], [], 0), [], []) && timestamp == 0
    {
      version, protocol, srcIP, dstIP, srcPort, dstPort, tsec := 0, 0, [], [], 0, 0, 0;
      tmsec, protoType, nodeID, nodePW, payload, cid, vlan := 0, 0, 0, [], [], [], 0;
      protoString, nodeName, timestamp := [], [], 0;
    }

    function Wire(): Packet
      reads this
    {
      Packet(version, protocol, srcIP, dstIP, srcPort, dstPort, tsec, tmsec,
             protoType, nodeID, nodePW, payload, cid, vlan)
    }

    /** What does not go over the wire. */
    function Rest(): (Bytes, Bytes, int)
      reads this
    {
      (protoString, nodeName, timestamp)
    }

    function View(): Fields
      reads this
    {
      Fields(Wire(), protoString, nodeName)
    }
  }
}
