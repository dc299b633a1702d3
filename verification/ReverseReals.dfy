/** Reverse builders for floats and doubles. A value is its IEEE 754 bit pattern, as the unions of
    the C code have it on a little-endian host: a double is two words, the upper one sent first. */
module ReverseReals {
  import opened Bytes
  import opened Ber
  import opened Tags
  import opened ReverseBuffer
  import opened ReverseEncode
  import opened ReverseInt64

  function DoubleOctets(d: Counter64): (s: seq<Byte>)
    ensures |s| == 8
  {
    NetworkOrder(d.high) + NetworkOrder(d.low)
  }

  function EncFloat(f: SubId): seq<Byte> {
    Tlv(OPAQUE, OpaqueWrapped(OPAQUE_FLOAT, NetworkOrder(f)))
  }

  function EncDouble(d: Counter64): seq<Byte> {
    Tlv(OPAQUE, OpaqueWrapped(OPAQUE_DOUBLE, DoubleOctets(d)))
  }

  /** What both builders do with the octets in network order: room for them and for the special
      tag and length is made at once, the Opaque header goes in front. */
  method RbuildReal(p: Packet, r: bool, tag: Byte, c: seq<Byte>) returns (ok: bool)
    requires p.Valid() && |c| <= 8
    modifies p, p.pkt
    ensures p.Prepended(Tlv(OPAQUE, OpaqueWrapped(tag, c)), r, ok)
  {
    hide Tlv, OpaqueWrapped, EncLength;
    WrapJoins(tag, c, p.content);
    ok := p.MakeRoom(|c| + 3, r);
    if ok {
      ok := p.PutAll(c, false);
      p.Store(|c|);
      p.Store(tag);
      p.Store(OPAQUE_TAG1);
      ShortHeader(tag, |c|, p.content, c + old(p.content));
      ok := BuildHeader(p, r, OPAQUE, |c| + 3);
    }
  }

  lemma ShortHeader(tag: Byte, n: Byte, content: seq<Byte>, behind: seq<Byte>)
    requires n <= 8 && content == [OPAQUE_TAG1] + ([tag] + ([n] + behind))
    ensures EncLength(n + 3) == [n + 3]
    ensures ([OPAQUE] + EncLength(n + 3)) + content == [OPAQUE, n + 3, OPAQUE_TAG1, tag, n] + behind
  {
  }

  /** Asn01_reallocRbuildFloat */
  method RbuildFloat(p: Packet, r: bool, f: SubId) returns (ok: bool)
    requires p.Valid()
    modifies p, p.pkt
    ensures p.Prepended(EncFloat(f), r, ok)
  {
    ok := RbuildReal(p, r, OPAQUE_FLOAT, NetworkOrder(f));
  }

  /** Asn01_reallocRbuildDouble */
  method RbuildDouble(p: Packet, r: bool, d: Counter64) returns (ok: bool)
    requires p.Valid()
    modifies p, p.pkt
    ensures p.Prepended(EncDouble(d), r, ok)
  {
    ok := RbuildReal(p, r, OPAQUE_DOUBLE, DoubleOctets(d));
  }
}
