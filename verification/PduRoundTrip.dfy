/** Parsing an encoded PDU gives the PDU back, whichever builder encoded it. */
module PduRoundTrip {
  import opened Bytes
  import opened Ber
  import opened Tags
  import opened ReverseInt64
  import opened ReverseReals
  import opened ParseSpec
  import opened RoundTrip
  import opened PduSpec

  /** The longest content a constructed header of this style can announce. */
  function Capacity(style: Style): nat {
    if style == Minimal then MAX_LENGTH else 0xffff
  }

  lemma WrapParses(style: Style, tag: Byte, c: seq<Byte>, rest: seq<Byte>, len: nat)
    requires |c| <= Capacity(style) && |Wrap(style, tag, c)| <= len
    ensures var k := |ConstructedHeader(style, tag, |c|)|;
            && ParseHead(Wrap(style, tag, c) + rest, len) == Some(Head(tag, |c|, k))
            && (Wrap(style, tag, c) + rest)[k..] == c + rest
  {
    if style == Minimal {
      assert Wrap(style, tag, c) == Tlv(tag, c);
      HeadRoundTrip(tag, c, rest, len);
    } else {
      var d := Wrap(style, tag, c) + rest;
      var hi, lo := |c| / 256 % 256, |c| % 256;
      assert d[1..] == [0x82, hi, lo] + (c + rest);
      assert d[1..][1..3] == [hi] + [lo];
      UValAppend([hi], lo);
      assert UVal([hi]) == hi by {
        assert [hi][..0] == [];
      }
      assert ParseLength(d[1..]) == Some(Item(|c|, 3));
      assert d[4..] == c + rest;
    }
  }

  // ----- the values that survive --------------------------------------------------------

  predicate PlainOid(o: ObjectId) {
    |o| <= MAX_OID_LEN && Splittable(o) && o[0] <= 2
  }

  /** An Opaque payload that Asn01_parseHeader does not take for a special value. */
  predicate PlainOpaque(s: seq<Byte>) {
    |s| >= 1 && (s[0] == OPAQUE_TAG1 ==> |s| >= 2 && s[1] !in SPECIAL_TAGS)
  }

  predicate Survives(tag: Byte, v: Value) {
    && WellTyped(tag, v) && IsKnownTag(tag)
    && (tag == INTEGER ==> -TWO_31 <= v.n < TWO_32)
    && (IsUnsignedTag(tag) ==> v.u < TWO_32)
    && (tag == IPADDRESS ==> |v.s| == 4)
    && (tag == OPAQUE ==> PlainOpaque(v.s))
    && (tag == BIT_STR ==> v.s != [])
    && (tag == OBJECT_ID ==> PlainOid(v.o))
  }

  predicate VarBindSurvives(vb: VarBind) {
    Survives(vb.tag, vb.value) && PlainOid(vb.name)
  }

  predicate SmallLong(v: Long) {
    -TWO_31 <= v < TWO_32
  }

  predicate FieldsSurvive(f: Fields) {
    match f
    case Request(reqid, errstat, errindex) => SmallLong(reqid) && SmallLong(errstat) && SmallLong(errindex)
    case Trap(enterprise, agentAddr, trapType, specificType, time) =>
      PlainOid(enterprise) && |agentAddr| == 4 && SmallLong(trapType) && SmallLong(specificType) && time < TWO_32
  }

  predicate PduSurvives(p: Pdu) {
    && IsPduCommand(p.command) && (p.fields.Trap? <==> p.command == MSG_TRAP) && FieldsSurvive(p.fields)
    && forall i :: 0 <= i < |p.variables| ==> VarBindSurvives(p.variables[i])
  }

  // ----- one varbind --------------------------------------------------------------------

  lemma PlainHeader(tag: Byte, c: seq<Byte>, rest: seq<Byte>, len: nat)
    requires tag % 32 != 31 && |c| <= MAX_LENGTH && |Tlv(tag, c)| <= len
    requires tag == OPAQUE ==> PlainOpaque(c)
    ensures ParseHeader(Tlv(tag, c) + rest, len) == Some(Head(tag, |c|, 1 + |EncLength(|c|)|))
  {
    HeadRoundTrip(tag, c, rest, len);
    var d, k := Tlv(tag, c) + rest, 1 + |EncLength(|c|)|;
    if tag == OPAQUE {
      assert d[k] == (c + rest)[0] == c[0];
      assert |c| >= 2 ==> d[k + 1] == (c + rest)[1] == c[1];
    }
  }

  lemma SpecialHeader(tag: Byte, c: seq<Byte>, rest: seq<Byte>, len: nat)
    requires |c| <= 9 && tag in SPECIAL_TAGS && |Tlv(OPAQUE, OpaqueWrapped(tag, c))| <= len
    ensures ParseHeader(Tlv(OPAQUE, OpaqueWrapped(tag, c)) + rest, len) == Some(Head(tag, |c|, 5))
    ensures |Tlv(OPAQUE, OpaqueWrapped(tag, c))| == 5 + |c|
  {
    InnerRoundTrip(tag, c, rest, len);
  }

  /** The header of a built value announces its type and ends exactly where the value ends. */
  lemma ValueHeader(tag: Byte, v: Value, rest: seq<Byte>, len: nat)
    requires Survives(tag, v) && |EncValue(tag, v)| <= len && |EncValue(tag, v)| <= MAX_LENGTH
    ensures var h := ParseHeader(EncValue(tag, v) + rest, len);
            && h.Some? && h.value.tag == tag && h.value.header + h.value.n == |EncValue(tag, v)|
            && (IsStringTag(tag) || tag == BIT_STR ==> h.value.n == |v.s|)
  {
    if IsUnsigned64Tag(tag) {
      UnsignedContent(v.c.Unsigned());
      var c := TwosContent(v.c.Unsigned());
      if tag == COUNTER64 {
        PlainHeader(tag, c, rest, len);
      } else {
        SpecialHeader(tag, c, rest, len);
      }
    } else if tag == OPAQUE_I64 {
      Content64(v.c.Signed());
      SpecialHeader(tag, TwosContent(v.c.Signed()), rest, len);
    } else if tag == OPAQUE_FLOAT {
      SpecialHeader(tag, NetworkOrder(v.f), rest, len);
    } else if tag == OPAQUE_DOUBLE {
      SpecialHeader(tag, DoubleOctets(v.d), rest, len);
    } else {
      PrimitiveHeader(tag, v, rest, len);
    }
  }

  lemma PrimitiveHeader(tag: Byte, v: Value, rest: seq<Byte>, len: nat)
    requires Survives(tag, v) && !IsUnsigned64Tag(tag) && tag !in {OPAQUE_I64, OPAQUE_FLOAT, OPAQUE_DOUBLE}
    requires |EncValue(tag, v)| <= len && |EncValue(tag, v)| <= MAX_LENGTH
    ensures var h := ParseHeader(EncValue(tag, v) + rest, len);
            && h.Some? && h.value.tag == tag && h.value.header + h.value.n == |EncValue(tag, v)|
            && (IsStringTag(tag) || tag == BIT_STR ==> h.value.n == |v.s|)
  {
    var c := if tag == INTEGER then TwosContent(Overflow32(v.n))
      else if IsUnsignedTag(tag) then TwosContent(Overflow32U(v.u))
      else if IsStringTag(tag) || tag == BIT_STR then v.s
      else if tag == OBJECT_ID then OidContent(v.o)
      else [];
    assert EncValue(tag, v) == Tlv(tag, c);
    PlainHeader(tag, c, rest, len);
  }

  lemma ValueRoundTrip(tag: Byte, v: Value, rest: seq<Byte>, n: nat)
    requires Survives(tag, v) && |EncValue(tag, v)| <= MAX_LENGTH
    requires IsStringTag(tag) || tag == BIT_STR ==> n == |v.s|
    ensures ParseValue(EncValue(tag, v) + rest, tag, n) == Some((tag, v))
  {
    hide ParseInt, ParseUnsignedInt, ParseUnsignedInt64, ParseSignedInt64, ParseString, ParseObjid, ParseBitstring;
    hide ParseFloat, ParseDouble;
    hide Tlv, TwosContent, EncFloat, EncDouble, OidContent, EncUnsigned64, EncSigned64;
    if tag == INTEGER {
      IntRoundTrip(v.n, rest, MAX_LENGTH);
    } else if IsUnsignedTag(tag) {
      UnsignedRoundTrip(tag, v.u, rest, MAX_LENGTH);
    } else if IsUnsigned64Tag(tag) {
      Unsigned64RoundTrip(tag, v.c, rest, MAX_LENGTH);
    } else if IsStringTag(tag) {
      StringRoundTrip(tag, v.s, rest, MAX_LENGTH, |v.s|);
    } else if tag == OBJECT_ID {
      OidRoundTrip(v.o, rest, MAX_LENGTH);
    } else if tag == OPAQUE_I64 {
      Signed64RoundTrip(v.c, rest, MAX_LENGTH);
    } else if tag == BIT_STR {
      BitstringRoundTrip(v.s, rest, MAX_LENGTH, n);
    } else if tag == OPAQUE_FLOAT {
      FloatRoundTrip(v.f, rest, MAX_LENGTH);
    } else if tag == OPAQUE_DOUBLE {
      DoubleRoundTrip(v.d, rest, MAX_LENGTH);
    }
  }

  lemma SequenceParses(d: seq<Byte>, len: nat, tag: Byte)
    requires ParseHead(d, len).Some? && ParseHead(d, len).value.tag == tag && tag % 32 != 31 && tag != OPAQUE
    ensures ParseHeader(d, len) == ParseHead(d, len) && ParseSequence(d, len, tag) == ParseHead(d, len)
  {
    hide ParseLength;
    assert d[0] == tag;
  }

  // The Join lemmas speak of arbitrary octet strings that parse as stated: how the pieces were
  // encoded does not matter to how the parsers step from one to the next.

  lemma VarOpJoin(style: Style, n: seq<Byte>, v: seq<Byte>, rest: seq<Byte>, len: nat, o: ObjectId, hv: Head)
    requires |n + v| <= Capacity(style) && |Wrap(style, SEQUENCE, n + v)| <= len
    requires ParseObjid(n + (v + rest), |n + v|, MAX_OID_LEN) == Some(Parsed(o, |n|, |v|))
    requires ParseHeader(v + rest, |v|) == Some(hv) && hv.header + hv.n == |v|
    ensures var d := Wrap(style, SEQUENCE, n + v) + rest;
            var at := |ConstructedHeader(style, SEQUENCE, |n + v|)| + |n|;
            var used := |Wrap(style, SEQUENCE, n + v)|;
            && ParseVarOp(d, len) == Some(VarOp(o, hv.tag, hv.n, at, used, len - used))
            && d[at..] == v + rest
  {
    hide ParseObjid, ConstructedHeader, ParseHead, ParseHeader, ParseSequence;
    var d := Wrap(style, SEQUENCE, n + v) + rest;
    var k := |ConstructedHeader(style, SEQUENCE, |n + v|)|;
    WrapParses(style, SEQUENCE, n + v, rest, len);
    SequenceParses(d, len, SEQUENCE);
    Assoc(n, v, rest);
    DropMore(d, k, n, v + rest);
  }

  lemma VarOpRoundTrip(style: Style, vb: VarBind, rest: seq<Byte>, len: nat)
    requires VarBindSurvives(vb) && |EncVarOp(style, vb)| <= len
    requires |EncVarOp(style, vb)| <= Capacity(style)
    ensures var d := EncVarOp(style, vb) + rest;
            var op := ParseVarOp(d, len);
            && op.Some? && op.value.name == vb.name
            && op.value.used == |EncVarOp(style, vb)| && op.value.left == len - |EncVarOp(style, vb)|
            && ParseValue(d[op.value.at..], op.value.tag, op.value.n) == Some((vb.tag, vb.value))
  {
    hide ParseVarOp, ParseValue, ParseHeader, ParseObjid, EncValue, OidContent, Tlv, ConstructedHeader;
    var n, v := EncName(vb.name), EncValue(vb.tag, vb.value);
    OidRoundTrip(vb.name, v + rest, |n + v|);
    ValueHeader(vb.tag, vb.value, rest, |v|);
    var hv := ParseHeader(v + rest, |v|).value;
    VarOpJoin(style, n, v, rest, len, vb.name, hv);
    ValueRoundTrip(vb.tag, vb.value, rest, hv.n);
  }

  lemma VarBindsFromParts(d: seq<Byte>, len: nat, op: VarOp, v: (Byte, Value), more: seq<VarBind>)
    requires len > 0 && ParseVarOp(d, len) == Some(op) && ParseValue(d[op.at..], op.tag, op.n) == Some(v)
    requires ParseVarBinds(Behind(d, op.used), op.left) == Some(more)
    ensures ParseVarBinds(d, len) == Some([VarBind(op.name, v.0, v.1)] + more)
  {
    hide ParseVarOp, ParseValue;
  }

  lemma BehindFirst(e: seq<Byte>, t: seq<Byte>)
    ensures Behind(e + t, |e|) == t
  {
  }

  lemma VarBindsJoin(e: seq<Byte>, tail: seq<Byte>, rest: seq<Byte>, vb: VarBind, more: seq<VarBind>)
    requires var d := e + (tail + rest);
             var op := ParseVarOp(d, |e| + |tail|);
             && op.Some? && op.value.name == vb.name && op.value.used == |e| && op.value.left == |tail|
             && ParseValue(d[op.value.at..], op.value.tag, op.value.n) == Some((vb.tag, vb.value))
    requires ParseVarBinds(tail + rest, |tail|) == Some(more)
    ensures ParseVarBinds((e + tail) + rest, |e + tail|) == Some([vb] + more)
  {
    hide ParseVarOp, ParseValue, ParseVarBinds, Behind;
    var d := e + (tail + rest);
    BehindFirst(e, tail + rest);
    VarBindsFromParts(d, |e| + |tail|, ParseVarOp(d, |e| + |tail|).value, (vb.tag, vb.value), more);
    Assoc(e, tail, rest);
  }

  lemma NoVarBinds(d: seq<Byte>)
    ensures ParseVarBinds(d, 0) == Some([])
  {
  }

  predicate AllSurvive(vbs: seq<VarBind>) {
    forall i :: 0 <= i < |vbs| ==> VarBindSurvives(vbs[i]) && VarOpBuildable(vbs[i])
  }

  lemma {:induction false} VarBindsRoundTrip(style: Style, vbs: seq<VarBind>, rest: seq<Byte>)
    requires AllSurvive(vbs)
    requires |EncVarBinds(style, vbs)| <= Capacity(style)
    ensures ParseVarBinds(EncVarBinds(style, vbs) + rest, |EncVarBinds(style, vbs)|) == Some(vbs)
  {
    hide ParseVarOp, ParseValue, ParseVarBinds, EncVarOp, VarBindSurvives, VarOpBuildable;
    if vbs != [] {
      var vb, tail := vbs[0], EncVarBinds(style, vbs[1..]);
      var e := EncVarOp(style, vb);
      VarOpRoundTrip(style, vb, tail + rest, |e| + |tail|);
      VarBindsRoundTrip(style, vbs[1..], rest);
      VarBindsJoin(e, tail, rest, vb, vbs[1..]);
      assert [vb] + vbs[1..] == vbs;
    } else {
      NoVarBinds([] + rest);
    }
  }

  lemma RequestJoin(a: seq<Byte>, b: seq<Byte>, c: seq<Byte>, rest: seq<Byte>, len: nat, x: Long, y: Long, z: Long)
    requires |a| + |b| + |c| <= len
    requires ParseInt(a + (b + (c + rest)), len) == Some(Parsed(x, |a|, len - |a|))
    requires ParseInt(b + (c + rest), len - |a|) == Some(Parsed(y, |b|, len - |a| - |b|))
    requires ParseInt(c + rest, len - |a| - |b|) == Some(Parsed(z, |c|, len - |a| - |b| - |c|))
    ensures ParseRequestFields((a + (b + c)) + rest, len)
            == Some(Parsed(Request(x, y, z), |a| + |b| + |c|, len - |a| - |b| - |c|))
  {
    hide ParseInt;
    var d := (a + (b + c)) + rest;
    assert d == a + (b + (c + rest));
    assert d[|a|..] == b + (c + rest) && d[|a| + |b|..] == c + rest;
  }

  lemma SmallRoundTrip(v: Long, rest: seq<Byte>, len: nat)
    requires SmallLong(v) && |EncInteger(v)| <= len
    ensures ParseInt(EncInteger(v) + rest, len) == Some(Parsed(v, |EncInteger(v)|, len - |EncInteger(v)|))
  {
    hide ParseInt, TwosContent, Tlv, Overflow32;
    IntSurvives(v);
    IntRoundTrip(v, rest, len);
  }

  lemma RequestRoundTrip(f: Fields, rest: seq<Byte>, len: nat)
    requires f.Request? && FieldsSurvive(f) && |EncRequestFields(f)| <= len
    ensures ParseRequestFields(EncRequestFields(f) + rest, len)
            == Some(Parsed(f, |EncRequestFields(f)|, len - |EncRequestFields(f)|))
  {
    hide ParseInt, ParseRequestFields, EncInteger;
    var a, b, c := EncInteger(f.reqid), EncInteger(f.errstat), EncInteger(f.errindex);
    SmallRoundTrip(f.reqid, b + (c + rest), len);
    SmallRoundTrip(f.errstat, c + rest, len - |a|);
    SmallRoundTrip(f.errindex, rest, len - |a| - |b|);
    RequestJoin(a, b, c, rest, len, f.reqid, f.errstat, f.errindex);
  }

  /** How one item after the other is taken off the front. */
  lemma FiveParts(a: seq<Byte>, b: seq<Byte>, c: seq<Byte>, d: seq<Byte>, e: seq<Byte>, rest: seq<Byte>)
    ensures var s := (a + (b + (c + (d + e)))) + rest;
            var k, m, n := |a| + |b|, |a| + |b| + |c|, |a| + |b| + |c| + |d|;
            && s == a + (b + (c + (d + (e + rest)))) && s[|a|..] == b + (c + (d + (e + rest)))
            && s[k..] == c + (d + (e + rest)) && s[m..] == d + (e + rest) && s[n..] == e + rest
            && |s| == n + |e| + |rest|
  {
    var s := (a + (b + (c + (d + e)))) + rest;
    var t4, t3 := e + rest, d + (e + rest);
    Assoc(d, e, rest);
    Assoc(c, d + e, rest);
    Assoc(b, c + (d + e), rest);
    Assoc(a, b + (c + (d + e)), rest);
    DropMore(s, 0, a, b + (c + t3));
    DropMore(s, |a|, b, c + t3);
    DropMore(s, |a| + |b|, c, t3);
    DropMore(s, |a| + |b| + |c|, d, t4);
  }

  lemma TrapJoin(a: seq<Byte>, b: seq<Byte>, c: seq<Byte>, d: seq<Byte>, e: seq<Byte>, rest: seq<Byte>, len: nat,
          f: Fields)
    requires f.Trap? && |f.agentAddr| == 4 && f.time < TWO_32 && |a| + |b| + |c| + |d| + |e| <= len
    requires ParseObjid(a + (b + (c + (d + (e + rest)))), len, MAX_OID_LEN)
            == Some(Parsed(f.enterprise, |a|, len - |a|))
    requires ParseString(b + (c + (d + (e + rest))), len - |a|, 4)
            == Some(Parsed((IPADDRESS, f.agentAddr), |b|, len - |a| - |b|))
    requires ParseInt(c + (d + (e + rest)), len - |a| - |b|) == Some(Parsed(f.trapType, |c|, len - |a| - |b| - |c|))
    requires ParseInt(d + (e + rest), len - |a| - |b| - |c|)
            == Some(Parsed(f.specificType, |d|, len - |a| - |b| - |c| - |d|))
    requires ParseUnsignedInt(e + rest, len - |a| - |b| - |c| - |d|)
             == Some(Parsed((TIMETICKS, f.time as SubId), |e|, len - |a| - |b| - |c| - |d| - |e|))
    ensures ParseTrapFields((a + (b + (c + (d + e)))) + rest, len)
            == Some(Parsed(f, |a| + |b| + |c| + |d| + |e|, len - |a| - |b| - |c| - |d| - |e|))
  {
    hide ParseInt, ParseObjid, ParseString, ParseUnsignedInt;
    FiveParts(a, b, c, d, e, rest);
    assert Address(f.agentAddr) == f.agentAddr;
  }

  lemma NameRoundTrip(o: ObjectId, rest: seq<Byte>, len: nat)
    requires PlainOid(o) && Buildable(o) && |EncName(o)| <= len <= MAX_LENGTH
    ensures ParseObjid(EncName(o) + rest, len, MAX_OID_LEN) == Some(Parsed(o, |EncName(o)|, len - |EncName(o)|))
  {
    hide OidContent, ParseObjid;
    OidRoundTrip(o, rest, len);
  }

  lemma TimeRoundTrip(v: ULong, rest: seq<Byte>, len: nat)
    requires v < TWO_32 && |EncTimeTicks(v)| <= len
    ensures ParseUnsignedInt(EncTimeTicks(v) + rest, len)
            == Some(Parsed((TIMETICKS, v as SubId), |EncTimeTicks(v)|, len - |EncTimeTicks(v)|))
  {
    hide ParseUnsignedInt, TwosContent, Tlv;
    UnsignedRoundTrip(TIMETICKS, v, rest, len);
  }

  lemma TrapRoundTrip(f: Fields, rest: seq<Byte>, len: nat)
    requires f.Trap? && FieldsSurvive(f) && FieldsBuildable(f) && |EncTrapFields(f)| <= len <= MAX_LENGTH
    ensures ParseTrapFields(EncTrapFields(f) + rest, len)
            == Some(Parsed(f, |EncTrapFields(f)|, len - |EncTrapFields(f)|))
  {
    hide ParseInt, ParseObjid, ParseString, ParseUnsignedInt, ParseTrapFields, EncInteger, EncName, EncTimeTicks, Tlv;
    var a, b, c := EncName(f.enterprise), Tlv(IPADDRESS, f.agentAddr), EncInteger(f.trapType);
    var d, e := EncInteger(f.specificType), EncTimeTicks(f.time);
    NameRoundTrip(f.enterprise, b + (c + (d + (e + rest))), len);
    StringRoundTrip(IPADDRESS, f.agentAddr, c + (d + (e + rest)), len - |a|, 4);
    SmallRoundTrip(f.trapType, d + (e + rest), len - |a| - |b|);
    SmallRoundTrip(f.specificType, e + rest, len - |a| - |b| - |c|);
    TimeRoundTrip(f.time, rest, len - |a| - |b| - |c| - |d|);
    TrapJoin(a, b, c, d, e, rest, len, f);
  }

  lemma FieldsRoundTrip(p: Pdu, rest: seq<Byte>, len: nat)
    requires PduSurvives(p) && FieldsBuildable(p.fields) && |EncFields(p.fields)| <= len <= MAX_LENGTH
    ensures ParseFields(EncFields(p.fields) + rest, len, p.command)
            == Some(Parsed(p.fields, |EncFields(p.fields)|, len - |EncFields(p.fields)|))
  {
    hide ParseTrapFields, ParseRequestFields, EncTrapFields, EncRequestFields, FieldsSurvive, FieldsBuildable;
    if p.fields.Trap? {
      TrapRoundTrip(p.fields, rest, len);
    } else {
      RequestRoundTrip(p.fields, rest, len);
    }
  }

  lemma PduFromParts(d: seq<Byte>, len: nat, h: Head, f: Parsed<Fields>, list: Head, vbs: seq<VarBind>)
    requires ParseHeader(d, len) == Some(h) && IsPduCommand(h.tag)
    requires ParseFields(d[h.header..], h.n, h.tag) == Some(f)
    requires h.header + f.used <= |d| && ParseSequence(d[h.header + f.used..], f.left, SEQUENCE) == Some(list)
    requires h.header + f.used + list.header <= |d|
    requires ParseVarBinds(d[h.header + f.used + list.header..], list.n) == Some(vbs)
    ensures ParsePdu(d, len) == Some(Pdu(h.tag, f.value, vbs))
  {
    hide ParseHeader, ParseFields, ParseSequence, ParseVarBinds;
  }

  lemma PduJoin(style: Style, command: Byte, f: seq<Byte>, l: seq<Byte>, rest: seq<Byte>, len: nat,
                fields: Parsed<Fields>, vbs: seq<VarBind>)
    requires IsPduCommand(command) && fields.used == |f| && fields.left == |Wrap(style, SEQUENCE, l)|
    requires var w := Wrap(style, SEQUENCE, l);
             && |l| <= Capacity(style) && |f + w| <= Capacity(style) && |Wrap(style, command, f + w)| <= len
             && ParseFields(f + (w + rest), |f + w|, command) == Some(fields)
    requires ParseVarBinds(l + rest, |l|) == Some(vbs)
    ensures ParsePdu(Wrap(style, command, f + Wrap(style, SEQUENCE, l)) + rest, len)
            == Some(Pdu(command, fields.value, vbs))
  {
    hide ParseFields, ParseVarBinds, ConstructedHeader, ParseHead, ParseHeader, ParseSequence, ParsePdu, Wrap;
    var w := Wrap(style, SEQUENCE, l);
    var d := Wrap(style, command, f + w) + rest;
    var k, m := |ConstructedHeader(style, command, |f + w|)|, |ConstructedHeader(style, SEQUENCE, |l|)|;
    WrapParses(style, command, f + w, rest, len);
    SequenceParses(d, len, command);
    Assoc(f, w, rest);
    DropMore(d, k, f, w + rest);
    WrapParses(style, SEQUENCE, l, rest, |w|);
    SequenceParses(w + rest, |w|, SEQUENCE);
    assert d[k + |f| + m..] == d[k + |f|..][m..];
    PduFromParts(d, len, Head(command, |f + w|, k), fields, Head(SEQUENCE, |l|, m), vbs);
  }

  lemma DropMore(d: seq<Byte>, k: nat, a: seq<Byte>, b: seq<Byte>)
    requires k <= |d| && d[k..] == a + b
    ensures d[k + |a|..] == b
  {
    assert d[k + |a|..] == d[k..][|a|..];
  }

  /** The round trip: any number of varbinds, either header style, anything behind the PDU. */
  lemma PduComesBack(style: Style, p: Pdu, rest: seq<Byte>, len: nat)
    requires PduSurvives(p) && PduBuildable(p)
    requires |EncPdu(style, p)| <= len && |PduContent(style, p)| <= Capacity(style)
    ensures ParsePdu(EncPdu(style, p) + rest, len) == Some(p)
  {
    hide ParsePdu, ParseFields, ParseVarBinds, EncFields, FieldsBuildable, EncVarBinds, ConstructedHeader;
    hide VarBindSurvives, VarOpBuildable;
    var f, l := EncFields(p.fields), EncVarBinds(style, p.variables);
    var w := Wrap(style, SEQUENCE, l);
    FieldsRoundTrip(p, w + rest, |f + w|);
    assert AllSurvive(p.variables);
    VarBindsRoundTrip(style, p.variables, rest);
    PduJoin(style, p.command, f, l, rest, len, Parsed(p.fields, |f|, |w|), p.variables);
  }
}
