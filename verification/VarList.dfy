/** The singly linked varbind list a PDU points to, and the part of Types_Pdu that is encoded. */
module VarList {
  import opened Bytes
  import opened PduSpec
  import opened Tags

  class VarNode {
    const vb: VarBind
    var next: VarNode?

    constructor (vb: VarBind)
      ensures this.vb == vb && next == null
    {
      this.vb := vb;
      next := null;
    }
  }

  /** `nodes` are the nodes reached from `head`, in list order, ending at NULL. */
  ghost predicate IsList(head: VarNode?, nodes: seq<VarNode>)
    reads nodes
  {
    && head == (if nodes == [] then null else nodes[0])
    && (forall i {:trigger nodes[i].next} :: 0 <= i < |nodes| ==>
          nodes[i].next == if i + 1 < |nodes| then nodes[i + 1] else null)
    && (forall i, j :: 0 <= i < j < |nodes| ==> nodes[i] != nodes[j])
  }

  ghost function VarBinds(nodes: seq<VarNode>): (vbs: seq<VarBind>)
    ensures |vbs| == |nodes|
    ensures forall i :: 0 <= i < |nodes| ==> vbs[i] == nodes[i].vb
  {
    seq(|nodes|, i requires 0 <= i < |nodes| => nodes[i].vb)
  }

  class PduRecord {
    var command: Byte
    var reqid: Long
    var errstat: Long
    var errindex: Long
    var enterprise: ObjectId
    var agentAddr: seq<Byte>
    var trapType: Long
    var specificType: Long
    var time: ULong
    var variables: VarNode?
    var contextEngineID: seq<Byte>
    var contextName: seq<Byte>

    constructor (command: Byte)
      ensures this.command == command && variables == null && agentAddr == [0, 0, 0, 0]
    {
      this.command, reqid, errstat, errindex := command, 0, 0, 0;
      enterprise, agentAddr, trapType, specificType, time := [], [0, 0, 0, 0], 0, 0, 0;
      variables := null;
      contextEngineID, contextName := [], [];
    }

    /** Everything but the list. */
    ghost predicate SameHeader(other: PduRecord)
      reads this, other
    {
      && command == other.command && reqid == other.reqid && errstat == other.errstat && errindex == other.errindex
      && enterprise == other.enterprise && agentAddr == other.agentAddr && trapType == other.trapType
      && specificType == other.specificType && time == other.time
      && contextEngineID == other.contextEngineID && contextName == other.contextName
    }

    /** _Client_clonePduHeader */
    constructor CloneOf(pdu: PduRecord)
      ensures SameHeader(pdu) && variables == null
    {
      command, reqid, errstat, errindex := pdu.command, pdu.reqid, pdu.errstat, pdu.errindex;
      enterprise, agentAddr := pdu.enterprise, pdu.agentAddr;
      trapType, specificType, time := pdu.trapType, pdu.specificType, pdu.time;
      variables := null;
      contextEngineID, contextName := pdu.contextEngineID, pdu.contextName;
    }

    ghost function AsFields(): Fields
      reads this
    {
      if command == MSG_TRAP then Trap(enterprise, agentAddr, trapType, specificType, time)
      else Request(reqid, errstat, errindex)
    }

    /** The PDU this record and its list denote. */
    ghost function AsPdu(nodes: seq<VarNode>): Pdu
      reads this
    {
      Pdu(command, AsFields(), VarBinds(nodes))
    }
  }
}
