/** Priot_buildVarOp and Api_pduBuild: four octets are skipped for each constructed header and
    patched once the length is known. */
module ForwardMessage {
  import opened Bytes
  import opened Ber
  import opened Tags
  import opened ParseSpec
  import opened PduSpec
  import opened VarList
  import opened RingCache
  import opened ForwardBuffer
  import opened ForwardEncode
  import opened ForwardInt64
  import opened ForwardReals
  import opened ForwardOid

  predicate ForwardValueBuildable(tag: Byte, v: Value)
    requires WellTyped(tag, v)
  {
    IsKnownTag(tag) && (tag == OBJECT_ID ==> ForwardBuildable(v.o)) && (tag == BIT_STR ==> v.s != [])
  }

  function ForwardValue(tag: Byte, v: Value): seq<Byte>
    requires WellTyped(tag, v) && ForwardValueBuildable(tag, v)
  {
    if tag == INTEGER then ForwardTlv(tag, TwosContent(Overflow32(v.n)))
    else if IsUnsignedTag(tag) then ForwardTlv(tag, TwosContent(Overflow32U(v.u)))
    else if IsUnsigned64Tag(tag) then ForwardUnsigned64(tag, v.c)
    else if IsStringTag(tag) || tag == BIT_STR then ForwardTlv(tag, v.s)
    else if tag == OBJECT_ID then ForwardTlv(tag, ForwardOidContent(v.o))
    else if tag == OPAQUE_I64 then ForwardSigned64(v.c)
    else if tag == OPAQUE_FLOAT then ForwardFloat(v.f)
    else if tag == OPAQUE_DOUBLE then ForwardDouble(v.d)
    else ForwardTlv(tag, [])
  }

  function ForwardName(name: ObjectId): seq<Byte>
    requires ForwardBuildable(name)
  {
    ForwardTlv(OBJECT_ID, ForwardOidContent(name))
  }

  predicate ForwardVarOpBuildable(vb: VarBind) {
    WellTyped(vb.tag, vb.value) && ForwardValueBuildable(vb.tag, vb.value) && ForwardBuildable(vb.name)
  }

  function ForwardVarOp(vb: VarBind): seq<Byte>
    requires ForwardVarOpBuildable(vb)
  {
    Wrap(FourByte, SEQUENCE, ForwardName(vb.name) + ForwardValue(vb.tag, vb.value))
  }

  predicate AllForwardBuildable(vbs: seq<VarBind>) {
    forall i :: 0 <= i < |vbs| ==> ForwardVarOpBuildable(vbs[i])
  }

  function ForwardVarBinds(vbs: seq<VarBind>): seq<Byte>
    requires AllForwardBuildable(vbs)
  {
    if vbs == [] then [] else ForwardVarBinds(vbs[..|vbs| - 1]) + ForwardVarOp(vbs[|vbs| - 1])
  }

  function ForwardInteger(v: Long): seq<Byte> {
    ForwardTlv(INTEGER, TwosContent(Overflow32(v)))
  }

  function ForwardTimeTicks(v: ULong): seq<Byte> {
    ForwardTlv(TIMETICKS, TwosContent(Overflow32U(v)))
  }

  predicate ForwardFieldsBuildable(f: Fields) {
    f.Trap? ==> ForwardBuildable(f.enterprise)
  }

  function ForwardRequestFields(f: Fields): seq<Byte>
    requires f.Request?
  {
    ForwardInteger(f.reqid) + (ForwardInteger(f.errstat) + ForwardInteger(f.errindex))
  }

  function ForwardTrapFields(f: Fields): seq<Byte>
    requires f.Trap? && ForwardFieldsBuildable(f)
  {
    ForwardName(f.enterprise)
    + (ForwardTlv(IPADDRESS, f.agentAddr)
       + (ForwardInteger(f.trapType) + (ForwardInteger(f.specificType) + ForwardTimeTicks(f.time))))
  }

  function ForwardFields(f: Fields): seq<Byte>
    requires ForwardFieldsBuildable(f)
  {
    if f.Trap? then ForwardTrapFields(f) else ForwardRequestFields(f)
  }

  predicate ForwardPduBuildable(p: Pdu) {
    ForwardFieldsBuildable(p.fields) && AllForwardBuildable(p.variables)
  }

  function ForwardContent(p: Pdu): seq<Byte>
    requires ForwardPduBuildable(p)
  {
    ForwardFields(p.fields) + Wrap(FourByte, SEQUENCE, ForwardVarBinds(p.variables))
  }

  function ForwardPdu(p: Pdu): seq<Byte>
    requires ForwardPduBuildable(p)
  {
    Wrap(FourByte, p.command, ForwardContent(p))
  }

  // ----- the builders -------------------------------------------------------------------

  /** The type switch of Priot_buildVarOp. */
  method BuildValue(c: Cursor, tag: Byte, v: Value) returns (ok: bool)
    requires c.Valid() && WellTyped(tag, v)
    modifies c, c.buf
    ensures !ForwardValueBuildable(tag, v) ==> !ok
    ensures ForwardValueBuildable(tag, v) ==> c.Appended(ForwardValue(tag, v), ok)
  {
    hide ForwardTlv, TwosContent, ForwardFloat, ForwardDouble, ForwardUnsigned64, ForwardSigned64, ForwardOidContent;
    hide ForwardBuildable;
    if tag == INTEGER {
      ok := BuildInt(c, tag, v.n);
    } else if IsUnsignedTag(tag) {
      ok := BuildUnsignedInt(c, tag, v.u);
    } else if IsUnsigned64Tag(tag) {
      ok := BuildUnsignedInt64(c, tag, v.c);
    } else if IsStringTag(tag) {
      ok := BuildString(c, tag, v.s);
    } else if tag == OBJECT_ID {
      ok := BuildObjid(c, tag, v.o);
    } else if IsEmptyTag(tag) {
      ok := BuildNull(c, tag);
    } else if tag == OPAQUE_I64 {
      ok := BuildSignedInt64(c, v.c);
    } else if tag == BIT_STR {
      ok := BuildBitstring(c, tag, v.s);
    } else if tag == OPAQUE_FLOAT {
      ok := BuildFloat(c, v.f);
    } else if tag == OPAQUE_DOUBLE {
      ok := BuildDouble(c, v.d);
    } else {
      ok := false;
    }
  }

  /** Skip, build, patch: what follows the four skipped octets gets its header. */
  lemma PatchJoins(before: seq<Byte>, skipped: seq<Byte>, h: seq<Byte>, body: seq<Byte>)
    requires |skipped| == |h| == 4
    ensures var s := (before + skipped) + body;
            s[..|before|] + h + s[|before| + 4..] == before + (h + body)
  {
  }

  /** Asn01_buildSequence over the four octets skipped at `at`. */
  method PatchSequence(c: Cursor, at: nat, tag: Byte, ghost before: seq<Byte>, ghost skipped: seq<Byte>,
                       ghost body: seq<Byte>)
    requires c.Valid() && |before| == at && |skipped| == 4 && c.content == (before + skipped) + body
    modifies c, c.buf
    ensures c.Valid() && c.content == before + Wrap(FourByte, tag, body) && c.left == old(c.left)
    ensures c.data == old(c.data)
  {
    var length := c.data - at - 4;
    PatchJoins(before, skipped, [tag, 0x82, length / 256 % 256, length % 256], body);
    c.Patch(at, tag, 0x82, length / 256 % 256, length % 256);
  }

  /** Priot_buildVarOp */
  method BuildVarOp(c: Cursor, vb: VarBind) returns (ok: bool)
    requires c.Valid() && WellTyped(vb.tag, vb.value)
    modifies c, c.buf
    ensures !ForwardVarOpBuildable(vb) ==> !ok
    ensures ForwardVarOpBuildable(vb) ==> c.Appended(ForwardVarOp(vb), ok)
  {
    hide ForwardTlv, ForwardValue, ForwardValueBuildable, ForwardOidContent, ForwardBuildable, WellTyped;
    if c.left < 4 {
      return false;
    }
    var at := c.data;
    ghost var before := c.content;
    c.SkipHeader();
    ghost var skipped := c.content[at..];
    assert c.content == before + skipped;
    ok := BuildObjid(c, OBJECT_ID, vb.name);
    if ok {
      ok := BuildValue(c, vb.tag, vb.value);
      if ok {
        Assoc(before + skipped, ForwardName(vb.name), ForwardValue(vb.tag, vb.value));
        PatchSequence(c, at, SEQUENCE, before, skipped, ForwardName(vb.name) + ForwardValue(vb.tag, vb.value));
      }
    }
  }

  method BuildRequestFields(c: Cursor, pdu: PduRecord) returns (ok: bool)
    requires c.Valid()
    modifies c, c.buf
    ensures c.Appended(ForwardRequestFields(Request(pdu.reqid, pdu.errstat, pdu.errindex)), ok)
  {
    hide ForwardTlv, TwosContent;
    ghost var x, y, z := ForwardInteger(pdu.reqid), ForwardInteger(pdu.errstat), ForwardInteger(pdu.errindex);
    Assoc(c.content + x, y, z);
    Assoc(c.content, x, y + z);
    ok := BuildInt(c, INTEGER, pdu.reqid);
    if ok {
      ok := BuildInt(c, INTEGER, pdu.errstat);
      if ok {
        ok := BuildInt(c, INTEGER, pdu.errindex);
      }
    }
  }

  /** Generic and specific trap and timestamp. */
  method BuildTrapNumbers(c: Cursor, pdu: PduRecord) returns (ok: bool)
    requires c.Valid()
    modifies c, c.buf
    ensures c.Appended(ForwardInteger(pdu.trapType) + (ForwardInteger(pdu.specificType) + ForwardTimeTicks(pdu.time)), ok)
  {
    hide ForwardTlv, TwosContent;
    ghost var x, y, z := ForwardInteger(pdu.trapType), ForwardInteger(pdu.specificType), ForwardTimeTicks(pdu.time);
    Assoc(c.content + x, y, z);
    Assoc(c.content, x, y + z);
    ok := BuildInt(c, INTEGER, pdu.trapType);
    if ok {
      ok := BuildInt(c, INTEGER, pdu.specificType);
      if ok {
        ok := BuildUnsignedInt(c, TIMETICKS, pdu.time);
      }
    }
  }

  /** The fields of an SNMPv1 trap. */
  method BuildTrapFields(c: Cursor, pdu: PduRecord) returns (ok: bool)
    requires c.Valid()
    modifies c, c.buf
    ensures var f := Trap(pdu.enterprise, pdu.agentAddr, pdu.trapType, pdu.specificType, pdu.time);
            && (!ForwardFieldsBuildable(f) ==> !ok)
            && (ForwardFieldsBuildable(f) ==> c.Appended(ForwardTrapFields(f), ok))
  {
    hide ForwardTlv, TwosContent, ForwardOidContent, ForwardBuildable, ForwardInteger, ForwardTimeTicks;
    ghost var base, b := c.content, ForwardTlv(IPADDRESS, pdu.agentAddr);
    ghost var n := ForwardInteger(pdu.trapType) + (ForwardInteger(pdu.specificType) + ForwardTimeTicks(pdu.time));
    ok := BuildObjid(c, OBJECT_ID, pdu.enterprise);
    if ok {
      Assoc(base + ForwardName(pdu.enterprise), b, n);
      Assoc(base, ForwardName(pdu.enterprise), b + n);
      ok := BuildString(c, IPADDRESS, pdu.agentAddr);
      if ok {
        ok := BuildTrapNumbers(c, pdu);
      }
    }
  }

  method BuildFields(c: Cursor, pdu: PduRecord) returns (ok: bool)
    requires c.Valid()
    modifies c, c.buf
    ensures !ForwardFieldsBuildable(pdu.AsFields()) ==> !ok
    ensures ForwardFieldsBuildable(pdu.AsFields()) ==> c.Appended(ForwardFields(pdu.AsFields()), ok)
  {
    hide ForwardTrapFields, ForwardRequestFields, ForwardBuildable;
    if pdu.command != MSG_TRAP {
      ok := BuildRequestFields(c, pdu);
    } else {
      ok := BuildTrapFields(c, pdu);
    }
  }

  lemma VarBindsStep(vbs: seq<VarBind>, k: nat, before: seq<Byte>)
    requires k < |vbs| && AllForwardBuildable(vbs[..k])
    ensures AllForwardBuildable(vbs) ==> ForwardVarOpBuildable(vbs[k])
    ensures ForwardVarOpBuildable(vbs[k]) ==>
              && AllForwardBuildable(vbs[..k + 1])
              && (before + ForwardVarBinds(vbs[..k])) + ForwardVarOp(vbs[k]) == before + ForwardVarBinds(vbs[..k + 1])
              && |ForwardVarBinds(vbs[..k + 1])| == |ForwardVarBinds(vbs[..k])| + |ForwardVarOp(vbs[k])|
  {
    hide ForwardVarOpBuildable, ForwardVarOp;
    var s := vbs[..k + 1];
    assert s[..k] == vbs[..k] && s[k] == vbs[k];
    assert s == vbs[..k] + [vbs[k]];
    if ForwardVarOpBuildable(vbs[k]) {
      assert AllForwardBuildable(s);
      Assoc(before, ForwardVarBinds(vbs[..k]), ForwardVarOp(vbs[k]));
    }
  }

  lemma {:induction false} VarBindsFit(vbs: seq<VarBind>, k: nat)
    requires k <= |vbs| && AllForwardBuildable(vbs)
    ensures AllForwardBuildable(vbs[..k]) && |ForwardVarBinds(vbs[..k])| <= |ForwardVarBinds(vbs)|
    decreases |vbs| - k
  {
    hide ForwardVarOpBuildable, ForwardVarOp;
    if k < |vbs| {
      VarBindsFit(vbs, k + 1);
      VarBindsStep(vbs, k, []);
    } else {
      assert vbs[..k] == vbs;
    }
  }

  /** The varbind loop of Api_pduBuild. */
  method BuildVarBinds(c: Cursor, variables: VarNode?, ghost nodes: seq<VarNode>) returns (ok: bool)
    requires c.Valid() && IsList(variables, nodes) && AllTyped(nodes)
    modifies c, c.buf
    ensures !AllForwardBuildable(VarBinds(nodes)) ==> !ok
    ensures AllForwardBuildable(VarBinds(nodes)) ==> c.Appended(ForwardVarBinds(VarBinds(nodes)), ok)
  {
    hide ForwardVarOpBuildable, ForwardVarOp, WellTyped, AllForwardBuildable, ForwardVarBinds;
    ghost var vbs, before, k := VarBinds(nodes), c.content, 0;
    var vp := variables;
    ok := true;
    NoneYet(vbs);
    assert before + [] == before;
    while vp != null
      invariant IsList(variables, nodes)
      invariant 0 <= k <= |nodes| && vp == (if k < |nodes| then nodes[k] else null) && ok
      invariant AllForwardBuildable(vbs[..k])
      invariant c.Valid() && c.content == before + ForwardVarBinds(vbs[..k])
      invariant c.left == old(c.left) - |ForwardVarBinds(vbs[..k])|
      decreases |nodes| - k
    {
      VarBindsStep(vbs, k, before);
      if AllForwardBuildable(vbs) {
        VarBindsFit(vbs, k + 1);
      }
      ok := BuildVarOp(c, vp.vb);
      if !ok {
        return;
      }
      assert nodes[k].next == if k + 1 < |nodes| then nodes[k + 1] else null;
      vp, k := vp.next, k + 1;
    }
    assert vbs[..k] == vbs;
  }

  lemma NoneYet(vbs: seq<VarBind>)
    ensures vbs[..0] == [] && AllForwardBuildable(vbs[..0]) && ForwardVarBinds(vbs[..0]) == []
  {
  }

  /** Api_pduBuild */
  method PduBuild(c: Cursor, pdu: PduRecord, ghost nodes: seq<VarNode>) returns (ok: bool)
    requires c.Valid() && IsList(pdu.variables, nodes) && AllTyped(nodes)
    modifies c, c.buf
    ensures !ForwardPduBuildable(pdu.AsPdu(nodes)) ==> !ok
    ensures ForwardPduBuildable(pdu.AsPdu(nodes)) ==> c.Appended(ForwardPdu(pdu.AsPdu(nodes)), ok)
  {
    hide ForwardFields, ForwardFieldsBuildable, AllForwardBuildable, ForwardVarBinds, AllTyped, IsList;
    hide PduRecord.AsFields;
    if c.left < 4 {
      return false;
    }
    var h1 := c.data;
    ghost var before, fields := c.content, pdu.AsFields();
    c.SkipHeader();
    ghost var skip1 := c.content[h1..];
    assert c.content == before + skip1;
    ok := BuildFields(c, pdu);
    if !ok {
      return;
    }
    ghost var f := ForwardFields(fields);
    ok := BuildList(c, pdu, nodes);
    if ok {
      Assoc(before + skip1, f, Wrap(FourByte, SEQUENCE, ForwardVarBinds(VarBinds(nodes))));
      PatchSequence(c, h1, pdu.command, before, skip1, f + Wrap(FourByte, SEQUENCE, ForwardVarBinds(VarBinds(nodes))));
    }
  }

  /** The varbind list and the header patched in front of it. */
  method BuildList(c: Cursor, pdu: PduRecord, ghost nodes: seq<VarNode>) returns (ok: bool)
    requires c.Valid() && IsList(pdu.variables, nodes) && AllTyped(nodes)
    modifies c, c.buf
    ensures !AllForwardBuildable(VarBinds(nodes)) ==> !ok
    ensures AllForwardBuildable(VarBinds(nodes)) ==>
              c.Appended(Wrap(FourByte, SEQUENCE, ForwardVarBinds(VarBinds(nodes))), ok)
  {
    hide AllForwardBuildable, ForwardVarBinds, AllTyped, IsList;
    if c.left < 4 {
      return false;
    }
    var h2 := c.data;
    ghost var before := c.content;
    c.SkipHeader();
    ghost var skip2 := c.content[h2..];
    assert c.content == before + skip2;
    ok := BuildVarBinds(c, pdu.variables, nodes);
    if ok {
      PatchSequence(c, h2, SEQUENCE, before, skip2, ForwardVarBinds(VarBinds(nodes)));
    }
  }
}
