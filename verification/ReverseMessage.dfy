/** Api_pduReallocRbuild and Api_v3ScopedPDUHeaderReallocRbuild. */
module ReverseMessage {
  import opened Bytes
  import opened Ber
  import opened Tags
  import opened ReverseBuffer
  import opened ReverseEncode
  import opened ParseSpec
  import opened PduSpec
  import opened PduRoundTrip
  import opened ScopedPdu
  import opened VarList
  import opened RingCache

  lemma HeaderInFront(tag: Byte, c: seq<Byte>, base: seq<Byte>)
    ensures ([tag] + EncLength(|c|)) + (c + base) == Wrap(Minimal, tag, c) + base
  {
    hide EncLength;
    Assoc([tag] + EncLength(|c|), c, base);
  }

  /** Error index, error status and request id, each in front of the one before. */
  method RbuildRequestFields(p: Packet, pdu: PduRecord)
    requires p.Valid()
    modifies p, p.pkt
    ensures p.Prepended(EncRequestFields(Request(pdu.reqid, pdu.errstat, pdu.errindex)), true, true)
  {
    hide Tlv, TwosContent;
    ghost var a, b, c := EncInteger(pdu.reqid), EncInteger(pdu.errstat), EncInteger(pdu.errindex);
    Assoc(b, c, p.content);
    Assoc(a, b + c, p.content);
    var ok := RbuildInt(p, true, INTEGER, pdu.errindex);
    ok := RbuildInt(p, true, INTEGER, pdu.errstat);
    ok := RbuildInt(p, true, INTEGER, pdu.reqid);
  }

  /** Timestamp, specific and generic trap. */
  method RbuildTrapNumbers(p: Packet, pdu: PduRecord)
    requires p.Valid()
    modifies p, p.pkt
    ensures p.Prepended(EncInteger(pdu.trapType) + (EncInteger(pdu.specificType) + EncTimeTicks(pdu.time)), true, true)
  {
    hide Tlv, TwosContent;
    ghost var c, d, e := EncInteger(pdu.trapType), EncInteger(pdu.specificType), EncTimeTicks(pdu.time);
    Assoc(d, e, p.content);
    Assoc(c, d + e, p.content);
    var ok := RbuildUnsignedInt(p, true, TIMETICKS, pdu.time);
    ok := RbuildInt(p, true, INTEGER, pdu.specificType);
    ok := RbuildInt(p, true, INTEGER, pdu.trapType);
  }

  /** The numbers, address and enterprise of an SNMPv1 trap, each in front of the one before. */
  method RbuildTrapFields(p: Packet, pdu: PduRecord) returns (ok: bool)
    requires p.Valid()
    modifies p, p.pkt
    ensures var f := Trap(pdu.enterprise, pdu.agentAddr, pdu.trapType, pdu.specificType, pdu.time);
            && (!FieldsBuildable(f) ==> !ok)
            && (FieldsBuildable(f) ==> p.Prepended(EncTrapFields(f), true, ok))
  {
    hide Tlv, TwosContent, OidContent, Buildable, EncInteger, EncTimeTicks;
    ghost var b := Tlv(IPADDRESS, pdu.agentAddr);
    ghost var c := EncInteger(pdu.trapType) + (EncInteger(pdu.specificType) + EncTimeTicks(pdu.time));
    Assoc(b, c, p.content);
    if Buildable(pdu.enterprise) {
      Assoc(EncName(pdu.enterprise), b + c, p.content);
    }
    RbuildTrapNumbers(p, pdu);
    ok := RbuildString(p, true, IPADDRESS, pdu.agentAddr);
    ok := RbuildObjid(p, true, OBJECT_ID, pdu.enterprise);
  }

  method RbuildFields(p: Packet, pdu: PduRecord) returns (ok: bool)
    requires p.Valid()
    modifies p, p.pkt
    ensures !FieldsBuildable(pdu.AsFields()) ==> !ok
    ensures FieldsBuildable(pdu.AsFields()) ==> p.Prepended(EncFields(pdu.AsFields()), true, ok)
  {
    hide EncTrapFields, EncRequestFields, Buildable;
    if pdu.command != MSG_TRAP {
      RbuildRequestFields(p, pdu);
      ok := true;
    } else {
      ok := RbuildTrapFields(p, pdu);
    }
  }

  lemma ContentInFront(tag: Byte, f: seq<Byte>, w: seq<Byte>, base: seq<Byte>)
    ensures ([tag] + EncLength(|f| + |w|)) + (f + (w + base)) == Wrap(Minimal, tag, f + w) + base
  {
    hide EncLength;
    Assoc(f, w, base);
    HeaderInFront(tag, f + w, base);
  }

  /** The varbinds and the header of their list. */
  method RbuildList(p: Packet, pdu: PduRecord, ghost nodes: seq<VarNode>) returns (ok: bool)
    requires p.Valid() && IsList(pdu.variables, nodes) && AllTyped(nodes)
    modifies p, p.pkt
    ensures !AllBuildable(VarBinds(nodes)) ==> !ok
    ensures AllBuildable(VarBinds(nodes)) ==>
              p.Prepended(Wrap(Minimal, SEQUENCE, EncVarBinds(Minimal, VarBinds(nodes))), true, ok)
  {
    hide EncVarBinds, EncLength, AllBuildable, AllTyped, IsList;
    var start := p.offset;
    ok := EmitAll(p, pdu.variables, nodes);
    if ok {
      HeaderInFront(SEQUENCE, EncVarBinds(Minimal, VarBinds(nodes)), old(p.content));
      ok := BuildHeader(p, true, SEQUENCE, p.offset - start);
    }
  }

  /** Api_pduReallocRbuild */
  method PduReallocRbuild(p: Packet, pdu: PduRecord, ghost nodes: seq<VarNode>) returns (ok: bool)
    requires p.Valid() && IsList(pdu.variables, nodes) && AllTyped(nodes)
    modifies p, p.pkt
    ensures !PduBuildable(pdu.AsPdu(nodes)) ==> !ok
    ensures PduBuildable(pdu.AsPdu(nodes)) ==> p.Prepended(EncPdu(Minimal, pdu.AsPdu(nodes)), true, ok)
  {
    hide EncVarBinds, EncFields, FieldsBuildable, EncLength, AllBuildable, AllTyped, IsList, PduRecord.AsFields;
    var start := p.offset;
    ok := RbuildList(p, pdu, nodes);
    if ok {
      if FieldsBuildable(pdu.AsFields()) {
        ghost var w := Wrap(Minimal, SEQUENCE, EncVarBinds(Minimal, VarBinds(nodes)));
        ContentInFront(pdu.command, EncFields(pdu.AsFields()), w, old(p.content));
      }
      ok := RbuildFields(p, pdu);
      if ok {
        ok := BuildHeader(p, true, pdu.command, p.offset - start);
      }
    }
  }

  /** Api_v3ScopedPDUHeaderReallocRbuild: name, engine id and the header of a sequence that also
      holds the `bodyLen` octets built before. */
  method ScopedHeaderReallocRbuild(p: Packet, pdu: PduRecord, bodyLen: nat, ghost body: seq<Byte>) returns (ok: bool)
    requires p.Valid() && |body| == bodyLen
    modifies p, p.pkt
    ensures ok && p.Valid() && (p.pkt == old(p.pkt) || fresh(p.pkt))
    ensures var c := Tlv(OCTET_STR, pdu.contextEngineID) + Tlv(OCTET_STR, pdu.contextName);
            p.content == (ConstructedHeader(Minimal, SEQUENCE, |c| + bodyLen) + c) + old(p.content)
  {
    hide EncLength, Tlv;
    var start := p.offset;
    ghost var e, n := Tlv(OCTET_STR, pdu.contextEngineID), Tlv(OCTET_STR, pdu.contextName);
    Assoc(e, n, p.content);
    Assoc(ConstructedHeader(Minimal, SEQUENCE, |e + n| + bodyLen), e + n, p.content);
    ok := RbuildString(p, true, OCTET_STR, pdu.contextName);
    ok := RbuildString(p, true, OCTET_STR, pdu.contextEngineID);
    ok := BuildHeader(p, true, SEQUENCE, p.offset - start + bodyLen);
  }

  /** The scoped PDU as Api_v3PacketReallocRbuild builds it: the PDU, then its header in front. */
  method ScopedReallocRbuild(p: Packet, pdu: PduRecord, ghost nodes: seq<VarNode>) returns (ok: bool)
    requires p.Valid() && IsList(pdu.variables, nodes) && AllTyped(nodes)
    modifies p, p.pkt
    ensures !PduBuildable(pdu.AsPdu(nodes)) ==> !ok
    ensures PduBuildable(pdu.AsPdu(nodes)) ==>
              p.Prepended(EncScoped(Minimal, Scoped(pdu.contextEngineID, pdu.contextName, pdu.AsPdu(nodes))), true, ok)
  {
    hide EncPdu, EncLength, PduBuildable, AllTyped, IsList, Tlv;
    var start := p.offset;
    ok := PduReallocRbuild(p, pdu, nodes);
    if ok {
      ghost var q, base := EncPdu(Minimal, pdu.AsPdu(nodes)), old(p.content);
      ghost var c := Tlv(OCTET_STR, pdu.contextEngineID) + Tlv(OCTET_STR, pdu.contextName);
      ghost var h := ConstructedHeader(Minimal, SEQUENCE, |c| + |q|);
      Assoc(h, c, q);
      Assoc(h + c, q, base);
      ok := ScopedHeaderReallocRbuild(p, pdu, p.offset - start, q);
    }
  }

  /** Parsing the `offset` octets the reverse encoder left at the end of the buffer. */
  lemma PacketParses(p: Packet, pdu: Pdu, base: seq<Byte>)
    requires PduSurvives(pdu) && PduBuildable(pdu) && |PduContent(Minimal, pdu)| <= MAX_LENGTH
    requires p.Valid() && p.content == EncPdu(Minimal, pdu) + base
    ensures ParsePdu(p.pkt[p.pkt.Length - p.offset..], p.offset) == Some(pdu)
  {
    hide EncPdu, PduContent, ParsePdu, PduSurvives;
    assert p.pkt[p.pkt.Length - p.offset..] == p.content;
    PduComesBack(Minimal, pdu, base, p.offset);
  }
}
