/** The two families of builders say the same. */
module Agreement {
  import opened Bytes
  import opened Ber
  import opened Tags
  import opened ReverseInt64
  import opened ReverseReals
  import opened ParseSpec
  import opened RoundTrip
  import opened PduSpec
  import opened PduRoundTrip
  import opened ForwardEncode
  import opened ForwardInt64
  import opened ForwardReals
  import opened ForwardOid
  import opened ForwardMessage

  /** Primitive encodings are identical octet for octet exactly as long as the forward length
      octets can hold the length. */
  lemma TlvAgrees(tag: Byte, content: seq<Byte>)
    ensures ForwardTlv(tag, content) == Tlv(tag, content) <==> |content| <= 0xffff
  {
    hide ForwardLength, EncLength;
    ForwardLengthAgrees(|content|);
    var f, r := ForwardTlv(tag, content), Tlv(tag, content);
    if f == r {
      assert |ForwardLength(|content|)| == |EncLength(|content|)|;
      assert f[1..1 + |ForwardLength(|content|)|] == ForwardLength(|content|);
      assert r[1..1 + |EncLength(|content|)|] == EncLength(|content|);
    }
  }

  lemma Content32Short(v: int)
    requires -TWO_32 < v < TWO_32
    ensures |TwosContent(v)| <= 5
  {
    Content32(v);
  }

  lemma Unsigned64Agrees(tag: Byte, c: Counter64)
    ensures ForwardUnsigned64(tag, c) == EncUnsigned64(tag, c)
    ensures ForwardSigned64(c) == EncSigned64(c)
  {
    hide TwosContent, ForwardTlv, Tlv;
    Content64Length(c);
    TlvAgrees(OPAQUE, OpaqueWrapped(tag, TwosContent(c.Unsigned())));
    TlvAgrees(tag, TwosContent(c.Unsigned()));
    TlvAgrees(OPAQUE, OpaqueWrapped(OPAQUE_I64, TwosContent(c.Signed())));
  }

  lemma RealsAgree(f: SubId, d: Counter64)
    ensures ForwardFloat(f) == EncFloat(f) && ForwardDouble(d) == EncDouble(d)
  {
    hide ForwardTlv, Tlv;
    TlvAgrees(OPAQUE, OpaqueWrapped(OPAQUE_FLOAT, NetworkOrder(f)));
    TlvAgrees(OPAQUE, OpaqueWrapped(OPAQUE_DOUBLE, DoubleOctets(d)));
  }

  lemma OidAgrees(tag: Byte, o: ObjectId)
    requires ForwardBuildable(o) && |o| >= 2
    ensures ForwardTlv(tag, ForwardOidContent(o)) == Tlv(tag, OidContent(o))
  {
    hide EncSubIds, ForwardTlv, Tlv;
    OidContentBound(Combined(o));
    TlvAgrees(tag, OidContent(o));
  }

  /** Every primitive builder pair gives identical octets. */
  lemma ValueAgrees(tag: Byte, v: Value)
    requires WellTyped(tag, v) && ForwardValueBuildable(tag, v)
    requires IsStringTag(tag) || tag == BIT_STR ==> |v.s| <= 0xffff
    requires tag == OBJECT_ID ==> |v.o| >= 2
    ensures ForwardValue(tag, v) == EncValue(tag, v)
  {
    hide TwosContent, ForwardTlv, Tlv, ForwardUnsigned64, EncUnsigned64, ForwardSigned64, EncSigned64;
    hide ForwardOidContent, OidContent;
    hide ForwardFloat, EncFloat, ForwardDouble, EncDouble;
    if tag == INTEGER {
      Content32Short(Overflow32(v.n));
      TlvAgrees(tag, TwosContent(Overflow32(v.n)));
    } else if IsUnsignedTag(tag) {
      Content32Short(Overflow32U(v.u));
      TlvAgrees(tag, TwosContent(Overflow32U(v.u)));
    } else if IsStringTag(tag) || tag == BIT_STR {
      TlvAgrees(tag, v.s);
    } else if tag == OBJECT_ID {
      OidAgrees(tag, v.o);
    } else if IsEmptyTag(tag) {
      TlvAgrees(tag, []);
    } else if tag == OPAQUE_FLOAT {
      RealsAgree(v.f, Counter64(0, 0));
    } else if tag == OPAQUE_DOUBLE {
      RealsAgree(0, v.d);
    } else {
      Unsigned64Agrees(tag, v.c);
    }
  }

  lemma VarOpAgrees(vb: VarBind)
    requires VarBindSurvives(vb) && ForwardVarOpBuildable(vb) && |ForwardVarOp(vb)| <= 0xffff
    ensures VarOpBuildable(vb) && ForwardVarOp(vb) == EncVarOp(FourByte, vb)
  {
    hide ForwardTlv, Tlv, ForwardOidContent, OidContent, ForwardValue, EncValue;
    OidAgrees(OBJECT_ID, vb.name);
    StringFits(vb);
    ValueAgrees(vb.tag, vb.value);
  }

  lemma StringFits(vb: VarBind)
    requires ForwardVarOpBuildable(vb) && |ForwardVarOp(vb)| <= 0xffff
    ensures IsStringTag(vb.tag) || vb.tag == BIT_STR ==> |vb.value.s| <= 0xffff
  {
    hide ForwardOidContent, TwosContent, ForwardLength;
  }

  lemma {:induction false} VarBindsAppend(style: Style, vbs: seq<VarBind>, vb: VarBind)
    requires AllBuildable(vbs) && VarOpBuildable(vb)
    ensures AllBuildable(vbs + [vb])
    ensures EncVarBinds(style, vbs + [vb]) == EncVarBinds(style, vbs) + EncVarOp(style, vb)
  {
    hide VarOpBuildable, EncVarOp;
    var s := vbs + [vb];
    if vbs == [] {
      assert s == [vb] && s[1..] == [] && EncVarBinds(style, []) == [];
      assert EncVarBinds(style, s) == EncVarOp(style, vb) + [];
    } else {
      assert s[1..] == vbs[1..] + [vb] && s[0] == vbs[0];
      VarBindsAppend(style, vbs[1..], vb);
      Assoc(EncVarOp(style, vbs[0]), EncVarBinds(style, vbs[1..]), EncVarOp(style, vb));
    }
  }

  lemma {:induction false} VarBindsAgree(vbs: seq<VarBind>)
    requires AllForwardBuildable(vbs) && |ForwardVarBinds(vbs)| <= 0xffff
    requires forall i :: 0 <= i < |vbs| ==> VarBindSurvives(vbs[i])
    ensures AllBuildable(vbs) && ForwardVarBinds(vbs) == EncVarBinds(FourByte, vbs)
  {
    hide VarBindSurvives, ForwardVarOpBuildable, VarOpBuildable, ForwardVarOp, EncVarOp;
    if vbs != [] {
      var init, vb := vbs[..|vbs| - 1], vbs[|vbs| - 1];
      assert vbs == init + [vb];
      VarBindsAgree(init);
      VarOpAgrees(vb);
      VarBindsAppend(FourByte, init, vb);
    }
  }

  lemma RequestFieldsAgree(f: Fields)
    requires f.Request?
    ensures ForwardRequestFields(f) == EncRequestFields(f)
  {
    hide ForwardInteger, EncInteger;
    IntegerAgrees(f.reqid);
    IntegerAgrees(f.errstat);
    IntegerAgrees(f.errindex);
  }

  lemma TrapFieldsAgree(f: Fields)
    requires f.Trap? && FieldsSurvive(f) && ForwardFieldsBuildable(f)
    ensures FieldsBuildable(f) && ForwardTrapFields(f) == EncTrapFields(f)
  {
    hide ForwardInteger, EncInteger, ForwardTlv, Tlv, ForwardOidContent, OidContent, TwosContent;
    OidAgrees(OBJECT_ID, f.enterprise);
    TlvAgrees(IPADDRESS, f.agentAddr);
    IntegerAgrees(f.trapType);
    IntegerAgrees(f.specificType);
    Content32Short(Overflow32U(f.time));
    TlvAgrees(TIMETICKS, TwosContent(Overflow32U(f.time)));
  }

  lemma FieldsAgree(f: Fields)
    requires FieldsSurvive(f) && ForwardFieldsBuildable(f)
    ensures FieldsBuildable(f) && ForwardFields(f) == EncFields(f)
  {
    hide ForwardTrapFields, EncTrapFields, ForwardRequestFields, EncRequestFields, FieldsSurvive;
    if f.Trap? {
      TrapFieldsAgree(f);
    } else {
      RequestFieldsAgree(f);
    }
  }

  lemma IntegerAgrees(v: Long)
    ensures ForwardInteger(v) == EncInteger(v)
  {
    hide TwosContent, ForwardTlv, Tlv;
    Content32Short(Overflow32(v));
    TlvAgrees(INTEGER, TwosContent(Overflow32(v)));
  }

  /** Where nothing is longer than two length octets can say, the forward PDU is the encoding
      with four-octet headers. */
  lemma ForwardPduIs(p: Pdu)
    requires PduSurvives(p) && ForwardPduBuildable(p) && |ForwardContent(p)| <= 0xffff
    ensures PduBuildable(p) && ForwardPdu(p) == EncPdu(FourByte, p) && ForwardContent(p) == PduContent(FourByte, p)
  {
    hide ForwardFields, EncFields, ForwardFieldsBuildable, FieldsBuildable, FieldsSurvive, ForwardVarBinds;
    hide EncVarBinds, VarBindSurvives;
    VarBindsAgree(p.variables);
    FieldsAgree(p.fields);
  }

  lemma TwoLengthOctets(hi: Byte, lo: Byte, t: seq<Byte>)
    ensures ParseLength([0x82, hi, lo] + t) == Some(Item(hi * 256 + lo, 3))
  {
    var d := [0x82, hi, lo] + t;
    assert d[1..3] == [hi] + [lo];
    UValAppend([hi], lo);
    UValAppend([], hi);
    assert [] + [hi] == [hi];
  }

  lemma HeadFromLength(h: seq<Byte>, c: seq<Byte>, rest: seq<Byte>, n: nat)
    requires |h| == 4 && n <= |c| && n <= MAX_LENGTH && ParseLength(h[1..] + (c + rest)) == Some(Item(n, 3))
    ensures ParseHead((h + c) + rest, 4 + |c|) == Some(Head(h[0], n, 4))
  {
    hide ParseLength;
    assert ((h + c) + rest)[1..] == h[1..] + (c + rest);
  }

  lemma LowTwoOctets(n: nat)
    ensures n / 256 % 256 * 256 + n % 256 == n % 0x1_0000
  {
  }

  lemma FourByteHeader(tag: Byte, c: seq<Byte>, rest: seq<Byte>)
    ensures ParseHead(Wrap(FourByte, tag, c) + rest, |Wrap(FourByte, tag, c)|) == Some(Head(tag, |c| % 0x1_0000, 4))
  {
    hide ParseLength;
    var hi, lo := |c| / 256 % 256, |c| % 256;
    LowTwoOctets(|c|);
    TwoLengthOctets(hi, lo, c + rest);
    HeadFromLength([tag, 0x82, hi, lo], c, rest, hi * 256 + lo);
  }

  /** The length in the forward PDU's own header is right exactly as long as two octets can hold it. */
  lemma ForwardLengthExact(p: Pdu, rest: seq<Byte>)
    requires ForwardPduBuildable(p) && IsPduCommand(p.command)
    ensures var h := ParseHeader(ForwardPdu(p) + rest, |ForwardPdu(p)|);
            && h == Some(Head(p.command, |ForwardContent(p)| % 0x1_0000, 4))
            && (h.value.n == |ForwardContent(p)| <==> |ForwardContent(p)| <= 0xffff)
  {
    hide ForwardContent, ParseHead;
    FourByteHeader(p.command, ForwardContent(p), rest);
  }

  /** Whenever both builders succeed, the parser maps what they built to the same PDU, the one
      they were given. */
  lemma BuildersAgree(p: Pdu, rest: seq<Byte>)
    requires PduSurvives(p) && ForwardPduBuildable(p) && PduBuildable(p)
    requires |ForwardContent(p)| <= 0xffff && |PduContent(Minimal, p)| <= MAX_LENGTH
    ensures ParsePdu(ForwardPdu(p) + rest, |ForwardPdu(p)|) == Some(p)
    ensures ParsePdu(EncPdu(Minimal, p) + rest, |EncPdu(Minimal, p)|) == Some(p)
  {
    hide ForwardPdu, ForwardContent, EncPdu, PduContent, ParsePdu, PduSurvives, ForwardPduBuildable, PduBuildable;
    ForwardPduIs(p);
    PduComesBack(FourByte, p, rest, |EncPdu(FourByte, p)|);
    PduComesBack(Minimal, p, rest, |EncPdu(Minimal, p)|);
  }
}
