/** Api_pduParse and Api_v3ScopedPduParse: octets into a PDU record with its varbind list. */
module PduParser {
  import opened Bytes
  import opened Tags
  import opened ParseSpec
  import opened Parsers
  import opened PduSpec
  import opened ScopedPdu
  import opened VarList

  /** Priot_parseVarOp */
  method ReadVarOp(d: seq<Byte>, listLength: nat, objid: array<SubId>) returns (r: Option<VarOp>)
    requires objid.Length == MAX_OID_LEN
    modifies objid
    ensures r == ParseVarOp(d, listLength)
  {
    hide ParseSequence, ParseObjid, ParseHeader;
    var h := ReadSequence(d, listLength, SEQUENCE);
    if h.None? {
      return None;
    }
    var name := ReadObjid(d[h.value.header..], h.value.n, objid);
    if name.None? {
      return None;
    }
    var at := h.value.header + name.value.used;
    var v := ReadHeader(d[at..], name.value.left);
    if v.None? {
      return None;
    }
    var used := at + v.value.header + v.value.n;
    r := Some(VarOp(objid[..name.value.value], v.value.tag, v.value.n, at, used, listLength - used));
  }

  /** The type switch. */
  method ReadValue(d: seq<Byte>, tag: Byte, n: nat, objid: array<SubId>) returns (r: Option<(Byte, Value)>)
    requires objid.Length == MAX_OID_LEN
    modifies objid
    ensures r == ParseValue(d, tag, n)
  {
    hide ParseInt, ParseUnsignedInt, ParseUnsignedInt64, ParseSignedInt64, ParseString, ParseObjid, ParseBitstring;
    hide ParseFloat, ParseDouble;
    r := None;
    if tag == INTEGER {
      var i := ReadInt(d, MAX_LENGTH);
      r := if i.None? then None else Some((tag, Integer(i.value.value)));
    } else if IsUnsignedTag(tag) {
      var i := ReadUnsignedInt(d, MAX_LENGTH);
      r := if i.None? then None else Some((i.value.value.0, Unsigned(i.value.value.1)));
    } else if IsUnsigned64Tag(tag) {
      var i := ReadUnsignedInt64(d, MAX_LENGTH);
      r := if i.None? then None else Some((i.value.value.0, Count64(i.value.value.1)));
    } else if tag == OPAQUE_I64 {
      var i := ReadSignedInt64(d, MAX_LENGTH);
      r := if i.None? then None else Some((i.value.value.0, Count64(i.value.value.1)));
    } else if IsStringTag(tag) {
      if tag == IPADDRESS && n != 4 {
        return None;
      }
      var i := ReadString(d, MAX_LENGTH, n);
      r := if i.None? then None else Some((i.value.value.0, Octets(i.value.value.1)));
    } else if tag == OBJECT_ID {
      var i := ReadObjid(d, MAX_LENGTH, objid);
      r := if i.None? then None else Some((tag, Oid(objid[..i.value.value])));
    } else if IsEmptyTag(tag) {
      r := Some((tag, Nothing));
    } else if tag == BIT_STR {
      var i := ReadBitstring(d, MAX_LENGTH, n);
      r := if i.None? then None else Some((tag, Octets(i.value.value)));
    } else if tag == OPAQUE_FLOAT {
      var i := ReadFloat(d, MAX_LENGTH);
      r := if i.None? then None else Some((tag, Float(i.value.value)));
    } else if tag == OPAQUE_DOUBLE {
      var i := ReadDouble(d, MAX_LENGTH);
      r := if i.None? then None else Some((tag, Double(i.value.value)));
    }
  }

  /** The varbinds read so far in front of what is still to be read. */
  function Preceded(vbs: seq<VarBind>, rest: Option<seq<VarBind>>): Option<seq<VarBind>> {
    match rest
    case None => None
    case Some(t) => Some(vbs + t)
  }

  lemma PrecededTwice(vbs: seq<VarBind>, vb: VarBind, rest: Option<seq<VarBind>>)
    ensures Preceded(vbs, Preceded([vb], rest)) == Preceded(vbs + [vb], rest)
  {
    if rest.Some? {
      Assoc(vbs, [vb], rest.value);
    }
  }

  lemma VarBindsStep(d: seq<Byte>, len: nat)
    requires len > 0
    ensures ParseVarBinds(d, len) ==
            match ParseVarOp(d, len)
            case None => None
            case Some(op) =>
              match ParseValue(d[op.at..], op.tag, op.n)
              case None => None
              case Some(v) => Preceded([VarBind(op.name, v.0, v.1)], ParseVarBinds(Behind(d, op.used), op.left))
  {
    hide ParseVarOp, ParseValue;
  }

  /** The same with the varbinds read so far in front. */
  lemma StepTaken(vbs: seq<VarBind>, d: seq<Byte>, len: nat)
    requires len > 0
    ensures Preceded(vbs, ParseVarBinds(d, len)) ==
            match ParseVarOp(d, len)
            case None => None
            case Some(op) =>
              match ParseValue(d[op.at..], op.tag, op.n)
              case None => None
              case Some(v) => Preceded(vbs + [VarBind(op.name, v.0, v.1)], ParseVarBinds(Behind(d, op.used), op.left))
  {
    hide ParseVarOp, ParseValue, ParseVarBinds, Behind;
    VarBindsStep(d, len);
    var op := ParseVarOp(d, len);
    if op.Some? {
      var v := ParseValue(d[op.value.at..], op.value.tag, op.value.n);
      if v.Some? {
        PrecededTwice(vbs, VarBind(op.value.name, v.value.0, v.value.1), ParseVarBinds(Behind(d, op.value.used), op.value.left));
      }
    }
  }

  /** Appending a node behind the last one, as the loop does with `vp`. */
  method Append(pdu: PduRecord, last: VarNode?, vb: VarBind, ghost nodes: seq<VarNode>) returns (node: VarNode)
    requires IsList(pdu.variables, nodes)
    requires last == if nodes == [] then null else nodes[|nodes| - 1]
    modifies pdu`variables, nodes
    ensures fresh(node) && IsList(pdu.variables, nodes + [node])
    ensures VarBinds(nodes + [node]) == VarBinds(nodes) + [vb]
  {
    node := new VarNode(vb);
    if last == null {
      pdu.variables := node;
    } else {
      last.next := node;
    }
  }

  lemma NothingPreceded(head: VarNode?, nodes: seq<VarNode>, rest: Option<seq<VarBind>>)
    requires nodes == [] && head == null
    ensures IsList(head, nodes) && Preceded(VarBinds(nodes), rest) == rest
  {
    assert rest.Some? ==> VarBinds(nodes) + rest.value == rest.value;
  }

  lemma NothingLeft(nodes: seq<VarNode>, d: seq<Byte>)
    ensures Preceded(VarBinds(nodes), ParseVarBinds(d, 0)) == Some(VarBinds(nodes))
  {
    assert VarBinds(nodes) + [] == VarBinds(nodes);
  }

  /** The varbind loop. A type it does not know makes the call fail, but only at its end. */
  method ReadVarBinds(pdu: PduRecord, d: seq<Byte>, len: nat) returns (ok: bool, ghost nodes: seq<VarNode>)
    requires pdu.variables == null
    modifies pdu`variables
    ensures fresh(nodes) && IsList(pdu.variables, nodes)
    ensures ok <==> ParseVarBinds(d, len).Some?
    ensures ok ==> VarBinds(nodes) == ParseVarBinds(d, len).value
  {
    hide ParseVarOp, ParseValue, ParseVarBinds, Preceded, Behind, IsKnownTag, IsList;
    var objid := new SubId[MAX_OID_LEN];
    var k := d;
    var left: nat := len;
    var vp: VarNode? := null;
    nodes := [];
    ok := true;
    ghost var want := ParseVarBinds(d, len);
    NothingPreceded(pdu.variables, nodes, want);
    while left > 0
      invariant fresh(nodes) && IsList(pdu.variables, nodes)
      invariant vp == if nodes == [] then null else nodes[|nodes| - 1]
      invariant want == if ok then Preceded(VarBinds(nodes), ParseVarBinds(k, left)) else None
    {
      StepTaken(VarBinds(nodes), k, left);
      var op := ReadVarOp(k, left, objid);
      if op.None? {
        ok := false;
        return;
      }
      var name := op.value.name;
      var v := ReadValue(k[op.value.at..], op.value.tag, op.value.n, objid);
      if v.None? && IsKnownTag(op.value.tag) {
        ok := false;
        return;
      }
      ok := ok && v.Some?;
      var vb := if v.Some? then VarBind(name, v.value.0, v.value.1) else VarBind(name, op.value.tag, Nothing);
      vp := Append(pdu, vp, vb, nodes);
      nodes := nodes + [vp];
      k, left := Behind(k, op.value.used), op.value.left;
    }
    NothingLeft(nodes, k);
  }

  /** The three INTEGERs in front of the varbinds, into the record. */
  method ReadRequestFields(pdu: PduRecord, d: seq<Byte>, len: nat) returns (at: Option<(nat, nat)>)
    modifies pdu`reqid, pdu`errstat, pdu`errindex
    ensures match ParseRequestFields(d, len)
            case None => at.None?
            case Some(f) => at == Some((f.used, f.left)) && f.value == Request(pdu.reqid, pdu.errstat, pdu.errindex)
  {
    hide ParseInt;
    var a := ReadInt(d, len);
    if a.None? {
      return None;
    }
    pdu.reqid := a.value.value;
    var b := ReadInt(d[a.value.used..], a.value.left);
    if b.None? {
      return None;
    }
    pdu.errstat := b.value.value;
    var m := a.value.used + b.value.used;
    var c := ReadInt(d[m..], b.value.left);
    if c.None? {
      return None;
    }
    pdu.errindex := c.value.value;
    at := Some((m + c.value.used, c.value.left));
  }

  /** The fields of an SNMPv1 trap, into a new record: the address may have fewer than four octets. */
  method ReadTrapFields(pdu: PduRecord, d: seq<Byte>, len: nat) returns (at: Option<(nat, nat)>)
    requires pdu.agentAddr == [0, 0, 0, 0]
    modifies pdu`enterprise, pdu`agentAddr, pdu`trapType, pdu`specificType, pdu`time
    ensures match ParseTrapFields(d, len)
            case None => at.None?
            case Some(f) =>
              && at == Some((f.used, f.left))
              && f.value == Trap(pdu.enterprise, pdu.agentAddr, pdu.trapType, pdu.specificType, pdu.time)
  {
    hide ParseInt, ParseObjid, ParseString, ParseUnsignedInt;
    var objid := new SubId[MAX_OID_LEN];
    var enterprise := ReadObjid(d, len, objid);
    if enterprise.None? {
      return None;
    }
    pdu.enterprise := objid[..enterprise.value.value];
    var k, left := enterprise.value.used, enterprise.value.left;
    var four := ReadString(d[k..], left, 4);
    if four.None? {
      return None;
    }
    pdu.agentAddr := Overlay(pdu.agentAddr, four.value.value.1);
    k, left := k + four.value.used, four.value.left;
    var generic := ReadInt(d[k..], left);
    if generic.None? {
      return None;
    }
    pdu.trapType := generic.value.value;
    k, left := k + generic.value.used, generic.value.left;
    var specific := ReadInt(d[k..], left);
    if specific.None? {
      return None;
    }
    pdu.specificType := specific.value.value;
    k, left := k + specific.value.used, specific.value.left;
    var time := ReadUnsignedInt(d[k..], left);
    if time.None? {
      return None;
    }
    pdu.time := time.value.value.1;
    at := Some((k + time.value.used, time.value.left));
  }

  /** memmove of the octets over what is there, and the zero behind them. */
  function Overlay(was: seq<Byte>, s: seq<Byte>): (a: seq<Byte>)
    requires |was| == 4 && |s| <= 4
    ensures was == [0, 0, 0, 0] ==> a == Address(s)
  {
    if |s| == 4 then s else s + [0] + was[|s| + 1..]
  }

  method ReadFields(pdu: PduRecord, d: seq<Byte>, len: nat) returns (at: Option<(nat, nat)>)
    requires pdu.agentAddr == [0, 0, 0, 0]
    modifies pdu`reqid, pdu`errstat, pdu`errindex, pdu`enterprise, pdu`agentAddr, pdu`trapType, pdu`specificType, pdu`time
    ensures match ParseFields(d, len, pdu.command)
            case None => at.None?
            case Some(f) => at == Some((f.used, f.left)) && f.value == pdu.AsFields()
  {
    hide ParseRequestFields, ParseTrapFields;
    if pdu.command == MSG_TRAP {
      at := ReadTrapFields(pdu, d, len);
    } else {
      at := ReadRequestFields(pdu, d, len);
    }
  }

  /** Api_pduParse into a record as it was allocated. A type code it does not know is an error. */
  method PduParse(pdu: PduRecord, d: seq<Byte>, len: nat) returns (ok: bool, ghost nodes: seq<VarNode>)
    requires pdu.variables == null && pdu.agentAddr == [0, 0, 0, 0]
    modifies pdu`command, pdu`reqid, pdu`errstat, pdu`errindex, pdu`variables
    modifies pdu`enterprise, pdu`agentAddr, pdu`trapType, pdu`specificType, pdu`time
    ensures fresh(nodes) && IsList(pdu.variables, nodes)
    ensures ok <==> ParsePdu(d, len).Some?
    ensures ok ==> pdu.AsPdu(nodes) == ParsePdu(d, len).value
  {
    hide ParseHeader, ParseFields, ParseSequence, ParseVarBinds;
    nodes := [];
    var h := ReadHeader(d, len);
    if h.None? {
      return false, nodes;
    }
    pdu.command := h.value.tag;
    if !IsPduCommand(pdu.command) {
      return false, nodes;
    }
    var fields := ReadFields(pdu, d[h.value.header..], h.value.n);
    if fields.None? {
      return false, nodes;
    }
    var at := h.value.header + fields.value.0;
    var list := ReadSequence(d[at..], fields.value.1, SEQUENCE);
    if list.None? {
      return false, nodes;
    }
    ok, nodes := ReadVarBinds(pdu, d[at + list.value.header..], list.value.n);
  }

  /** Api_v3ScopedPduParse: the result is how far the data pointer moved and the new `*length`. */
  method ScopedPduParse(pdu: PduRecord, d: seq<Byte>, len: nat, engineCapacity: nat) returns (r: Option<(nat, nat)>)
    modifies pdu`command, pdu`contextEngineID, pdu`contextName
    ensures match ParseContext(d, len, engineCapacity)
            case None => r.None?
            case Some(c) =>
              && r == Some((c.at, c.left)) && pdu.command == c.command
              && pdu.contextEngineID == c.engineID && pdu.contextName == c.name
  {
    hide ParseSequence, ParseString, ParseHeader;
    pdu.command := 0;
    var s := ReadSequence(d, len, SEQUENCE);
    if s.None? {
      return None;
    }
    var k, left := s.value.header, len - s.value.header;
    var e := ReadString(d[k..], left, engineCapacity);
    if e.None? {
      return None;
    }
    pdu.contextEngineID := e.value.value.1;
    k, left := k + e.value.used, e.value.left;
    var n := ReadString(d[k..], left, API_MAX_CONTEXT_SIZE);
    if n.None? {
      return None;
    }
    pdu.contextName := n.value.value.1;
    k, left := k + n.value.used, n.value.left;
    var h := ReadHeader(d[k..], left);
    if h.None? {
      return None;
    }
    pdu.command := h.value.tag;
    r := Some((k, left));
  }

  /** A received scoped PDU: the context, then the PDU inside it. */
  method ReceiveScoped(pdu: PduRecord, d: seq<Byte>, len: nat, engineCapacity: nat)
    returns (ok: bool, ghost nodes: seq<VarNode>)
    requires pdu.variables == null && pdu.agentAddr == [0, 0, 0, 0]
    modifies pdu
    ensures ok <==> ParseScoped(d, len, engineCapacity).Some?
    ensures ok ==> IsList(pdu.variables, nodes)
    ensures ok ==> ParseScoped(d, len, engineCapacity)
                   == Some(Scoped(pdu.contextEngineID, pdu.contextName, pdu.AsPdu(nodes)))
  {
    hide ParseContext, ParsePdu;
    var r := ScopedPduParse(pdu, d, len, engineCapacity);
    if r.None? {
      return false, [];
    }
    ok, nodes := PduParse(pdu, d[r.value.0..], r.value.1);
  }
}
