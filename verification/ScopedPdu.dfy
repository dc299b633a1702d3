/** The scoped PDU of RFC 3412: context engine id and context name in front of a PDU. */
module ScopedPdu {
  import opened Bytes
  import opened Ber
  import opened Tags
  import opened ParseSpec
  import opened RoundTrip
  import opened PduSpec
  import opened PduRoundTrip

  const API_MAX_CONTEXT_SIZE := 256

  datatype Scoped = Scoped(engineID: seq<Byte>, name: seq<Byte>, pdu: Pdu)

  function EncContext(s: Scoped): seq<Byte> {
    Tlv(OCTET_STR, s.engineID) + Tlv(OCTET_STR, s.name)
  }

  function ScopedContent(style: Style, s: Scoped): seq<Byte>
    requires PduBuildable(s.pdu)
  {
    EncContext(s) + EncPdu(style, s.pdu)
  }

  function EncScoped(style: Style, s: Scoped): seq<Byte>
    requires PduBuildable(s.pdu)
  {
    Wrap(style, SEQUENCE, ScopedContent(style, s))
  }

  /** Api_v3ScopedPduParse: context, command, where the PDU starts and how many octets are left
      for it. What is left is counted from the whole input, not from the sequence's length. */
  datatype Context = Context(engineID: seq<Byte>, name: seq<Byte>, command: Byte, at: nat, left: nat)

  function ParseContext(d: seq<Byte>, len: nat, engineCapacity: nat): (r: Option<Context>)
    ensures r.Some? ==> r.value.at <= |d| && r.value.at + r.value.left == len
  {
    var s :- ParseSequence(d, len, SEQUENCE);
    var e :- ParseString(d[s.header..], len - s.header, engineCapacity);
    var k := s.header + e.used;
    var n :- ParseString(d[k..], e.left, API_MAX_CONTEXT_SIZE);
    var m := k + n.used;
    var h :- ParseHeader(d[m..], n.left);
    Some(Context(e.value.1, n.value.1, h.tag, m, n.left))
  }

  /** The scoped PDU parsed, and then the PDU inside it. */
  function ParseScoped(d: seq<Byte>, len: nat, engineCapacity: nat): Option<Scoped> {
    var c :- ParseContext(d, len, engineCapacity);
    var p :- ParsePdu(d[c.at..], c.left);
    Some(Scoped(c.engineID, c.name, p))
  }

  lemma ContextJoin(style: Style, e: seq<Byte>, n: seq<Byte>, q: seq<Byte>, rest: seq<Byte>, len: nat, cap: nat,
                    engine: seq<Byte>, name: seq<Byte>, h: Head)
    requires |(e + n) + q| <= Capacity(style) && |Wrap(style, SEQUENCE, (e + n) + q)| <= len
    requires var left := len - |ConstructedHeader(style, SEQUENCE, |(e + n) + q|)|;
             && ParseString(e + (n + (q + rest)), left, cap) == Some(Parsed((OCTET_STR, engine), |e|, left - |e|))
             && ParseString(n + (q + rest), left - |e|, API_MAX_CONTEXT_SIZE) == Some(Parsed((OCTET_STR, name), |n|, left - |e| - |n|))
             && ParseHeader(q + rest, left - |e| - |n|) == Some(h)
    ensures var d := Wrap(style, SEQUENCE, (e + n) + q) + rest;
            var at := |ConstructedHeader(style, SEQUENCE, |(e + n) + q|)| + |e| + |n|;
            && ParseContext(d, len, cap) == Some(Context(engine, name, h.tag, at, len - at))
            && at <= |d| && d[at..] == q + rest
  {
    hide ParseString, ParseHeader, ParseHead, ParseSequence, ConstructedHeader, Wrap;
    var c := (e + n) + q;
    var d := Wrap(style, SEQUENCE, c) + rest;
    var k := |ConstructedHeader(style, SEQUENCE, |c|)|;
    WrapParses(style, SEQUENCE, c, rest, len);
    SequenceParses(d, len, SEQUENCE);
    assert c + rest == e + (n + (q + rest));
    DropMore(d, k, e, n + (q + rest));
    DropMore(d, k + |e|, n, q + rest);
  }

  lemma PduHeader(style: Style, p: Pdu, rest: seq<Byte>, len: nat)
    requires PduSurvives(p) && PduBuildable(p)
    requires |EncPdu(style, p)| <= len && |PduContent(style, p)| <= Capacity(style)
    ensures ParseHeader(EncPdu(style, p) + rest, len).Some?
    ensures ParseHeader(EncPdu(style, p) + rest, len).value.tag == p.command
  {
    hide ParseHead, ParseHeader, ConstructedHeader, EncFields, FieldsBuildable, EncVarBinds;
    var c := EncFields(p.fields) + Wrap(style, SEQUENCE, EncVarBinds(style, p.variables));
    WrapParses(style, p.command, c, rest, len);
    SequenceParses(EncPdu(style, p) + rest, len, p.command);
  }

  lemma ContentWithin(style: Style, p: Pdu)
    requires PduBuildable(p)
    ensures |PduContent(style, p)| <= |EncPdu(style, p)|
  {
    hide PduContent, ConstructedHeader;
  }

  /** The round trip inside a scoped PDU, with any octets behind it. */
  lemma ScopedComesBack(style: Style, s: Scoped, rest: seq<Byte>, len: nat, engineCapacity: nat)
    requires PduSurvives(s.pdu) && PduBuildable(s.pdu)
    requires |s.engineID| <= engineCapacity && |s.name| <= API_MAX_CONTEXT_SIZE
    requires |EncScoped(style, s)| <= len && |ScopedContent(style, s)| <= Capacity(style)
    ensures ParseScoped(EncScoped(style, s) + rest, len, engineCapacity) == Some(s)
  {
    hide ParseString, ParseHeader, ParseContext, ParsePdu, Tlv, EncPdu, PduContent, ConstructedHeader, PduSurvives;
    var e, n, q := Tlv(OCTET_STR, s.engineID), Tlv(OCTET_STR, s.name), EncPdu(style, s.pdu);
    var left := len - |ConstructedHeader(style, SEQUENCE, |(e + n) + q|)|;
    StringRoundTrip(OCTET_STR, s.engineID, n + (q + rest), left, engineCapacity);
    StringRoundTrip(OCTET_STR, s.name, q + rest, left - |e|, API_MAX_CONTEXT_SIZE);
    ContentWithin(style, s.pdu);
    PduHeader(style, s.pdu, rest, left - |e| - |n|);
    var h := ParseHeader(q + rest, left - |e| - |n|).value;
    ContextJoin(style, e, n, q, rest, len, engineCapacity, s.engineID, s.name, h);
    PduComesBack(style, s.pdu, rest, left - |e| - |n|);
  }
}
