/** Varbinds and PDUs: what the reverse encoder leaves in the buffer and what the parser makes
    of octets (Priot.c, Api.c). */
module PduSpec {
  import opened Bytes
  import opened Ber
  import opened Tags
  import opened ReverseInt64
  import opened ReverseReals
  import opened ParseSpec

  /** The C union a VariableList points to, read according to the type octet beside it. */
  datatype Value =
    | Integer(n: Long)
    | Unsigned(u: ULong)
    | Count64(c: Counter64)
    | Octets(s: seq<Byte>)
    | Oid(o: ObjectId)
    | Float(f: SubId)     // a float or double is its bit pattern
    | Double(d: Counter64)
    | Nothing

  datatype VarBind = VarBind(name: ObjectId, tag: Byte, value: Value)

  /** What a PDU holds in front of its varbinds: three integers or, in an SNMPv1 trap, the
      enterprise, the agent's address, the generic and the specific trap and a timestamp. */
  datatype Fields =
    | Request(reqid: Long, errstat: Long, errindex: Long)
    | Trap(enterprise: ObjectId, agentAddr: seq<Byte>, trapType: Long, specificType: Long, time: ULong)

  datatype Pdu = Pdu(command: Byte, fields: Fields, variables: seq<VarBind>)

  predicate IsUnsigned64Tag(tag: Byte) {
    tag == OPAQUE_COUNTER64 || tag == OPAQUE_U64 || tag == COUNTER64
  }

  predicate IsEmptyTag(tag: Byte) {
    tag == NULL || tag == NOSUCHOBJECT || tag == NOSUCHINSTANCE || tag == ENDOFMIBVIEW
  }

  predicate IsKnownTag(tag: Byte) {
    || tag == INTEGER || IsUnsignedTag(tag) || IsUnsigned64Tag(tag) || tag == OPAQUE_I64
    || IsStringTag(tag) || tag == OBJECT_ID || IsEmptyTag(tag)
    || tag == BIT_STR || tag == OPAQUE_FLOAT || tag == OPAQUE_DOUBLE
  }

  /** The union holds what the type octet says: C callers owe this to every builder. */
  predicate WellTyped(tag: Byte, v: Value) {
    && (tag == INTEGER ==> v.Integer?)
    && (IsUnsignedTag(tag) ==> v.Unsigned?)
    && (IsUnsigned64Tag(tag) || tag == OPAQUE_I64 ==> v.Count64?)
    && (IsStringTag(tag) || tag == BIT_STR ==> v.Octets?)
    && (tag == OPAQUE_FLOAT ==> v.Float?)
    && (tag == OPAQUE_DOUBLE ==> v.Double?)
    && (tag == OBJECT_ID ==> v.Oid?)
    && (IsEmptyTag(tag) ==> v.Nothing?)
  }

  // ----- encoding -----------------------------------------------------------------------

  /** Constructed encodings differ by builder: the reverse ones have the minimal header, the
      forward ones (Asn01_buildSequence) always two length octets. */
  datatype Style = Minimal | FourByte

  function ConstructedHeader(style: Style, tag: Byte, n: nat): (h: seq<Byte>)
    ensures 2 <= |h| && (style == FourByte ==> |h| == 4)
  {
    match style
    case Minimal => [tag] + EncLength(n)
    case FourByte => [tag, 0x82, n / 256 % 256, n % 256]
  }

  function Wrap(style: Style, tag: Byte, c: seq<Byte>): (w: seq<Byte>)
    ensures |w| == |ConstructedHeader(style, tag, |c|)| + |c|
  {
    ConstructedHeader(style, tag, |c|) + c
  }

  /** Whether the type switch of Priot_reallocRbuildVarOp finds a builder that succeeds. */
  predicate ValueBuildable(tag: Byte, v: Value)
    requires WellTyped(tag, v)
  {
    IsKnownTag(tag) && (tag == OBJECT_ID ==> Buildable(v.o))
  }

  function EncValue(tag: Byte, v: Value): seq<Byte>
    requires WellTyped(tag, v) && ValueBuildable(tag, v)
  {
    if tag == INTEGER then Tlv(tag, TwosContent(Overflow32(v.n)))
    else if IsUnsignedTag(tag) then Tlv(tag, TwosContent(Overflow32U(v.u)))
    else if IsUnsigned64Tag(tag) then EncUnsigned64(tag, v.c)
    else if IsStringTag(tag) || tag == BIT_STR then Tlv(tag, v.s)
    else if tag == OBJECT_ID then Tlv(tag, OidContent(v.o))
    else if tag == OPAQUE_I64 then EncSigned64(v.c)
    else if tag == OPAQUE_FLOAT then EncFloat(v.f)
    else if tag == OPAQUE_DOUBLE then EncDouble(v.d)
    else Tlv(tag, [])
  }

  predicate VarOpBuildable(vb: VarBind) {
    WellTyped(vb.tag, vb.value) && ValueBuildable(vb.tag, vb.value) && Buildable(vb.name)
  }

  function EncName(name: ObjectId): seq<Byte>
    requires Buildable(name)
  {
    Tlv(OBJECT_ID, OidContent(name))
  }

  function EncVarOp(style: Style, vb: VarBind): seq<Byte>
    requires VarOpBuildable(vb)
  {
    Wrap(style, SEQUENCE, EncName(vb.name) + EncValue(vb.tag, vb.value))
  }

  predicate AllBuildable(vbs: seq<VarBind>) {
    forall i :: 0 <= i < |vbs| ==> VarOpBuildable(vbs[i])
  }

  function EncVarBinds(style: Style, vbs: seq<VarBind>): seq<Byte>
    requires AllBuildable(vbs)
  {
    if vbs == [] then [] else EncVarOp(style, vbs[0]) + EncVarBinds(style, vbs[1..])
  }

  function EncInteger(v: Long): seq<Byte> {
    Tlv(INTEGER, TwosContent(Overflow32(v)))
  }

  function EncTimeTicks(v: ULong): seq<Byte> {
    Tlv(TIMETICKS, TwosContent(Overflow32U(v)))
  }

  predicate FieldsBuildable(f: Fields) {
    f.Trap? ==> Buildable(f.enterprise)
  }

  function EncTrapFields(f: Fields): seq<Byte>
    requires f.Trap? && FieldsBuildable(f)
  {
    EncName(f.enterprise)
    + (Tlv(IPADDRESS, f.agentAddr) + (EncInteger(f.trapType) + (EncInteger(f.specificType) + EncTimeTicks(f.time))))
  }

  function EncRequestFields(f: Fields): seq<Byte>
    requires f.Request?
  {
    EncInteger(f.reqid) + (EncInteger(f.errstat) + EncInteger(f.errindex))
  }

  function EncFields(f: Fields): seq<Byte>
    requires FieldsBuildable(f)
  {
    if f.Trap? then EncTrapFields(f) else EncRequestFields(f)
  }

  predicate PduBuildable(p: Pdu) {
    FieldsBuildable(p.fields) && AllBuildable(p.variables)
  }

  function PduContent(style: Style, p: Pdu): seq<Byte>
    requires PduBuildable(p)
  {
    EncFields(p.fields) + Wrap(style, SEQUENCE, EncVarBinds(style, p.variables))
  }

  /** What Api_pduReallocRbuild (Minimal) and Api_pduBuild (FourByte) make of a PDU. */
  function EncPdu(style: Style, p: Pdu): seq<Byte>
    requires PduBuildable(p)
  {
    Wrap(style, p.command, PduContent(style, p))
  }

  // ----- parsing ------------------------------------------------------------------------

  /** Priot_parseVarOp: the name, the type and length of the value, where the value starts and
      how far the data pointer moved. The pointer ends behind the value, wherever the length of
      the enclosing sequence says it ends. */
  datatype VarOp = VarOp(name: ObjectId, tag: Byte, n: nat, at: nat, used: nat, left: nat)

  function ParseVarOp(d: seq<Byte>, listLength: nat): (r: Option<VarOp>)
    ensures r.Some? ==> 0 < r.value.used && r.value.left == listLength - r.value.used && r.value.at <= |d|
  {
    var h :- ParseSequence(d, listLength, SEQUENCE);
    var name :- ParseObjid(d[h.header..], h.n, MAX_OID_LEN);
    var at := h.header + name.used;
    var v :- ParseHeader(d[at..], name.left);
    var used := at + v.header + v.n;
    Some(VarOp(name.value, v.tag, v.n, at, used, listLength - used))
  }

  /** The type switch of Api_pduParse: `d` starts at the value, `n` is the length its header gave. */
  function ParseValue(d: seq<Byte>, tag: Byte, n: nat): Option<(Byte, Value)> {
    if tag == INTEGER then
      var i :- ParseInt(d, MAX_LENGTH);
      Some((tag, Integer(i.value)))
    else if IsUnsignedTag(tag) then
      var i :- ParseUnsignedInt(d, MAX_LENGTH);
      Some((i.value.0, Unsigned(i.value.1)))
    else if IsUnsigned64Tag(tag) then
      var i :- ParseUnsignedInt64(d, MAX_LENGTH);
      Some((i.value.0, Count64(i.value.1)))
    else if tag == OPAQUE_I64 then
      var i :- ParseSignedInt64(d, MAX_LENGTH);
      Some((i.value.0, Count64(i.value.1)))
    else if IsStringTag(tag) then
      if tag == IPADDRESS && n != 4 then None
      else
        var i :- ParseString(d, MAX_LENGTH, n);
        Some((i.value.0, Octets(i.value.1)))
    else if tag == OBJECT_ID then
      var i :- ParseObjid(d, MAX_LENGTH, MAX_OID_LEN);
      Some((tag, Oid(i.value)))
    else if IsEmptyTag(tag) then Some((tag, Nothing))
    else if tag == BIT_STR then
      var i :- ParseBitstring(d, MAX_LENGTH, n);
      Some((tag, Octets(i.value)))
    else if tag == OPAQUE_FLOAT then
      var i :- ParseFloat(d, MAX_LENGTH);
      Some((tag, Float(i.value)))
    else if tag == OPAQUE_DOUBLE then
      var i :- ParseDouble(d, MAX_LENGTH);
      Some((tag, Double(i.value)))
    else None
  }

  /** The memory from the advanced pointer on; nothing can be read once it is past the end. */
  function Behind(d: seq<Byte>, used: nat): seq<Byte> {
    if used <= |d| then d[used..] else []
  }

  /** The varbind loop of Api_pduParse. */
  function ParseVarBinds(d: seq<Byte>, len: nat): Option<seq<VarBind>>
    decreases len
  {
    if len == 0 then Some([])
    else
      var op :- ParseVarOp(d, len);
      var v :- ParseValue(d[op.at..], op.tag, op.n);
      var rest :- ParseVarBinds(Behind(d, op.used), op.left);
      Some([VarBind(op.name, v.0, v.1)] + rest)
  }

  predicate IsPduCommand(c: Byte) {
    || c == MSG_GET || c == MSG_GETNEXT || c == MSG_RESPONSE || c == MSG_SET || c == MSG_TRAP
    || c == MSG_GETBULK || c == MSG_INFORM || c == MSG_TRAP2 || c == MSG_REPORT
  }

  /** Three INTEGERs in a row: request id, error status, error index. */
  function ParseRequestFields(d: seq<Byte>, len: nat): (r: Option<Parsed<Fields>>)
    ensures r.Some? ==> 0 < r.value.used <= |d| && r.value.left == len - r.value.used && r.value.value.Request?
  {
    var reqid :- ParseInt(d, len);
    var k := reqid.used;
    var errstat :- ParseInt(d[k..], reqid.left);
    var m := k + errstat.used;
    var errindex :- ParseInt(d[m..], errstat.left);
    Some(Parsed(Request(reqid.value, errstat.value, errindex.value), m + errindex.used, errindex.left))
  }

  /** Up to four octets over the zeros of a new record. */
  function Address(s: seq<Byte>): (a: seq<Byte>)
    requires |s| <= 4
    ensures |a| == 4
  {
    s + seq(4 - |s|, _ => 0)
  }

  /** The fields of an SNMPv1 trap. */
  function ParseTrapFields(d: seq<Byte>, len: nat): (r: Option<Parsed<Fields>>)
    ensures r.Some? ==> 0 < r.value.used <= |d| && r.value.left == len - r.value.used && r.value.value.Trap?
  {
    var enterprise :- ParseObjid(d, len, MAX_OID_LEN);
    var k := enterprise.used;
    var agentAddr :- ParseString(d[k..], enterprise.left, 4);
    var m := k + agentAddr.used;
    var trapType :- ParseInt(d[m..], agentAddr.left);
    var n := m + trapType.used;
    var specificType :- ParseInt(d[n..], trapType.left);
    var o := n + specificType.used;
    var time :- ParseUnsignedInt(d[o..], specificType.left);
    Some(Parsed(Trap(enterprise.value, Address(agentAddr.value.1), trapType.value, specificType.value, time.value.1),
                o + time.used, time.left))
  }

  function ParseFields(d: seq<Byte>, len: nat, command: Byte): (r: Option<Parsed<Fields>>)
    ensures r.Some? ==> 0 < r.value.used <= |d| && r.value.left == len - r.value.used
    ensures r.Some? ==> (r.value.value.Trap? <==> command == MSG_TRAP)
  {
    if command == MSG_TRAP then ParseTrapFields(d, len) else ParseRequestFields(d, len)
  }

  /** Api_pduParse into a new record. */
  function ParsePdu(d: seq<Byte>, len: nat): Option<Pdu> {
    var h :- ParseHeader(d, len);
    if !IsPduCommand(h.tag) then None
    else
      var f :- ParseFields(d[h.header..], h.n, h.tag);
      var at := h.header + f.used;
      var list :- ParseSequence(d[at..], f.left, SEQUENCE);
      var vbs :- ParseVarBinds(d[at + list.header..], list.n);
      Some(Pdu(h.tag, f.value, vbs))
  }
}
