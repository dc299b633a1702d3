/** Priot_reallocRbuildVarOp and Api_pduReallocRbuild: varbinds and PDUs built back to front. */
module ReversePdu {
  import opened Bytes
  import opened Ber
  import opened Tags
  import opened ReverseBuffer
  import opened ReverseEncode
  import opened ReverseInt64
  import opened ReverseReals
  import opened ParseSpec
  import opened PduSpec
  import opened VarList

  /** The type switch of Priot_reallocRbuildVarOp. */
  method RbuildValue(p: Packet, r: bool, tag: Byte, v: Value) returns (ok: bool)
    requires p.Valid() && WellTyped(tag, v)
    modifies p, p.pkt
    ensures !ValueBuildable(tag, v) ==> !ok
    ensures ValueBuildable(tag, v) ==> p.Prepended(EncValue(tag, v), r, ok)
  {
    hide Tlv, TwosContent, EncFloat, EncDouble, EncUnsigned64, EncSigned64, OidContent, Buildable;
    if tag == INTEGER {
      ok := RbuildInt(p, r, tag, v.n);
    } else if IsUnsignedTag(tag) {
      ok := RbuildUnsignedInt(p, r, tag, v.u);
    } else if IsUnsigned64Tag(tag) {
      ok := RbuildUnsignedInt64(p, r, tag, v.c);
    } else if IsStringTag(tag) {
      ok := RbuildString(p, r, tag, v.s);
    } else if tag == OBJECT_ID {
      ok := RbuildObjid(p, r, tag, v.o);
    } else if IsEmptyTag(tag) {
      ok := RbuildNull(p, r, tag);
    } else if tag == OPAQUE_I64 {
      ok := RbuildSignedInt64(p, r, v.c);
    } else if tag == BIT_STR {
      ok := RbuildBitstring(p, r, tag, v.s);
    } else if tag == OPAQUE_FLOAT {
      ok := RbuildFloat(p, r, v.f);
    } else if tag == OPAQUE_DOUBLE {
      ok := RbuildDouble(p, r, v.d);
    } else {
      ok := false;
    }
  }

  /** Priot_reallocRbuildVarOp: the value, then the name in front of it, then the header. */
  method RbuildVarOp(p: Packet, r: bool, vb: VarBind) returns (ok: bool)
    requires p.Valid() && WellTyped(vb.tag, vb.value)
    modifies p, p.pkt
    ensures !VarOpBuildable(vb) ==> !ok
    ensures VarOpBuildable(vb) ==> p.Prepended(EncVarOp(Minimal, vb), r, ok)
  {
    hide Tlv, EncValue, ValueBuildable, OidContent, Buildable, WellTyped;
    var start := p.offset;
    if VarOpBuildable(vb) {
      VarOpJoins(EncName(vb.name), EncValue(vb.tag, vb.value), p.content);
    }
    ok := RbuildValue(p, r, vb.tag, vb.value);
    if ok {
      ok := RbuildObjid(p, r, OBJECT_ID, vb.name);
      if ok {
        ok := BuildHeader(p, r, SEQUENCE, p.offset - start);
      }
    }
  }

  lemma VarOpJoins(n: seq<Byte>, v: seq<Byte>, c: seq<Byte>)
    ensures ([SEQUENCE] + EncLength(|n| + |v|)) + (n + (v + c)) == Wrap(Minimal, SEQUENCE, n + v) + c
    ensures |Wrap(Minimal, SEQUENCE, n + v)| == 1 + |EncLength(|n| + |v|)| + |n| + |v|
  {
    hide EncLength;
    Assoc(n, v, c);
    Assoc([SEQUENCE] + EncLength(|n + v|), n + v, c);
  }
}
