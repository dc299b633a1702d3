/** Forward builders for floats and doubles. */
module ForwardReals {
  import opened Bytes
  import opened Tags
  import opened ReverseInt64
  import opened ReverseReals
  import opened ForwardBuffer
  import opened ForwardEncode
  import opened ForwardInt64

  function ForwardFloat(f: SubId): seq<Byte> {
    ForwardTlv(OPAQUE, OpaqueWrapped(OPAQUE_FLOAT, NetworkOrder(f)))
  }

  function ForwardDouble(d: Counter64): seq<Byte> {
    ForwardTlv(OPAQUE, OpaqueWrapped(OPAQUE_DOUBLE, DoubleOctets(d)))
  }

  /** The headers, and then the octets in network order. */
  method BuildReal(c: Cursor, tag: Byte, s: seq<Byte>) returns (ok: bool)
    requires c.Valid()
    modifies c, c.buf
    ensures c.Appended(ForwardTlv(OPAQUE, OpaqueWrapped(tag, s)), ok)
  {
    hide ForwardLength;
    SpecialJoins(c.content, tag, s);
    ok := SpecialHeader(c, tag, |s|);
    if ok {
      c.StoreAll(s);
    }
  }

  /** Asn01_buildFloat */
  method BuildFloat(c: Cursor, f: SubId) returns (ok: bool)
    requires c.Valid()
    modifies c, c.buf
    ensures c.Appended(ForwardFloat(f), ok)
  {
    ok := BuildReal(c, OPAQUE_FLOAT, NetworkOrder(f));
  }

  /** Asn01_buildDouble */
  method BuildDouble(c: Cursor, d: Counter64) returns (ok: bool)
    requires c.Valid()
    modifies c, c.buf
    ensures c.Appended(ForwardDouble(d), ok)
  {
    ok := BuildReal(c, OPAQUE_DOUBLE, DoubleOctets(d));
  }
}
