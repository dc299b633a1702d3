/** Forward builders for 64-bit values shifted through two 32-bit registers. */
module ForwardInt64 {
  import opened Bytes
  import opened Ber
  import opened Tags
  import opened ReverseInt64
  import opened ForwardBuffer
  import opened ForwardEncode

  // ----- two registers as one -----------------------------------------------------------

  function ShiftHigh(high: SubId, low: SubId): SubId {
    high % TWO_24 * 256 + low / TWO_24
  }

  function ShiftLow(low: SubId): SubId {
    low % TWO_24 * 256
  }

  /** The two assignments of the loops shift the pair left by eight bits. */
  lemma PairShift(high: SubId, low: SubId, s: seq<Byte>)
    requires 1 <= |s| <= 8 && high * TWO_32 + low == Aligned(s)
    ensures ShiftHigh(high, low) * TWO_32 + ShiftLow(low) == Aligned(s[1..])
    ensures high / TWO_24 == s[0]
    ensures |s| >= 2 ==> high / 0x80_0000 == (s[0] as int) * 2 + s[1] / 128
  {
    hide Aligned;
    ShiftRegister(s);
    var u := high * TWO_32 + low;
    assert u / 0x100_0000_0000_0000 == high / TWO_24;
    assert u / 0x80_0000_0000_0000 == high / 0x80_0000;
    PairShiftValue(high, low);
  }

  lemma PairShiftValue(high: SubId, low: SubId)
    ensures ShiftHigh(high, low) * TWO_32 + ShiftLow(low) == (high * TWO_32 + low) * 256 % TWO_64
  {
    var t := high / TWO_24;
    assert (high * TWO_32 + low) * 256 == t * TWO_64 + (ShiftHigh(high, low) * TWO_32 + ShiftLow(low));
  }

  /** Eight octets for a pair of halves, read signed. */
  lemma PairBytes(c: Counter64) returns (s: seq<Byte>)
    ensures |s| == 8 && SignedVal(s) == c.Signed() && UVal(s) == c.Unsigned() == Aligned(s)
    ensures s[0] >= 128 <==> c.high >= TWO_31
  {
    hide UVal, SignedVal, Aligned, Pow256;
    s := LongBytes(c.Signed());
    SignedIsUnsigned(c);
    SignedFromUnsigned(s);
    Pow256Values();
  }

  lemma SignedIsUnsigned(c: Counter64)
    ensures c.Signed() % TWO_64 == c.Unsigned()
    ensures 2 * c.Unsigned() >= TWO_64 <==> c.high >= TWO_31
  {
    assert c.Signed() == c.Unsigned() || c.Signed() == c.Unsigned() - TWO_64;
  }

  /** Shifts redundant sign octets out of the pair. */
  method StripHalves(c: Counter64) returns (high: SubId, low: SubId, intsize: nat)
    ensures intsize == |TwosContent(c.Signed())| <= 8 && high * TWO_32 + low == Aligned(TwosContent(c.Signed()))
  {
    hide Aligned, TwosContent, UVal, SignedVal, Counter64.Signed;
    ghost var s := PairBytes(c);
    high, low, intsize := c.high, c.low, 8;
    var mask2 := 0x80_0000; // the top nine bits are what is left above 2^23
    while (high / mask2 == 0 || high / mask2 == 0x1ff) && intsize > 1
      invariant 1 <= intsize == |s| <= 8 && high * TWO_32 + low == Aligned(s) && SignedVal(s) == c.Signed()
      decreases intsize
    {
      PairShift(high, low, s);
      DropSign(s);
      s := s[1..];
      high, low, intsize := ShiftHigh(high, low), ShiftLow(low), intsize - 1;
    }
    PairShift(high, low, s);
    TwosUnique(s);
  }

  /** Writes the octets of the pair, most significant first. */
  method ShiftOutHalves(c: Cursor, high0: SubId, low0: SubId, size: nat, ghost s: seq<Byte>)
    requires c.Valid() && |s| == size <= 8 && c.left >= size && high0 * TWO_32 + low0 == Aligned(s)
    modifies c, c.buf
    ensures c.Valid() && c.content == old(c.content) + s && c.left == old(c.left) - size
  {
    hide Aligned;
    var high: SubId, low: SubId, intsize := high0, low0, size;
    ghost var k := 0;
    while intsize > 0
      invariant 0 <= k <= |s| && intsize == size - k && high * TWO_32 + low == Aligned(s[k..])
      invariant c.Valid() && c.content == old(c.content) + s[..k] && c.left == old(c.left) - k
    {
      PairShift(high, low, s[k..]);
      assert s[k..][1..] == s[k + 1..] && s[..k + 1] == s[..k] + [s[k]];
      Assoc(old(c.content), s[..k], [s[k]]);
      c.Store(high / TWO_24);
      high, low, intsize, k := ShiftHigh(high, low), ShiftLow(low), intsize - 1, k + 1;
    }
    assert s[..k] == s;
  }

  // ----- unsigned and signed builders ---------------------------------------------------

  function ForwardUnsigned64(tag: Byte, c: Counter64): seq<Byte> {
    if tag == OPAQUE_COUNTER64 || tag == OPAQUE_U64
    then ForwardTlv(OPAQUE, OpaqueWrapped(tag, TwosContent(c.Unsigned())))
    else ForwardTlv(tag, TwosContent(c.Unsigned()))
  }

  function ForwardSigned64(c: Counter64): seq<Byte> {
    ForwardTlv(OPAQUE, OpaqueWrapped(OPAQUE_I64, TwosContent(c.Signed())))
  }

  /** With the top bit set the unsigned content is a null octet and all eight octets. */
  lemma NullOctetContent(c: Counter64, s: seq<Byte>)
    requires c.high >= TWO_31 && |s| == 8 && UVal(s) == c.Unsigned() && s[0] >= 128
    ensures [0] + s == TwosContent(c.Unsigned())
  {
    hide UVal, SignedVal, Pow256, TwosContent, Counter64.Unsigned;
    var w: seq<Byte> := [0] + s;
    UValCons(0, s);
    SignedFromUnsigned(w);
    TwosUnique(w);
  }

  lemma PlainContent(c: Counter64)
    requires c.high < TWO_31
    ensures c.Unsigned() == c.Signed()
  {
  }

  lemma SpecialJoins(before: seq<Byte>, tag: Byte, s: seq<Byte>)
    ensures (before + ([OPAQUE] + ForwardLength(|s| + 3)) + [OPAQUE_TAG1, tag, |s| % 256]) + s
            == before + ForwardTlv(OPAQUE, OpaqueWrapped(tag, s))
  {
    hide ForwardLength;
    var h: seq<Byte> := [OPAQUE] + ForwardLength(|s| + 3);
    var t: seq<Byte> := [OPAQUE_TAG1, tag, |s| % 256];
    Assoc(before, h, t);
    Assoc(before, h + t, s);
    Assoc(h, t, s);
  }

  /** The header of the special form: the Opaque around it, tag, and length. */
  method SpecialHeader(c: Cursor, tag: Byte, intsize: nat) returns (ok: bool)
    requires c.Valid()
    modifies c, c.buf
    ensures ok <==> 4 + |ForwardLength(intsize + 3)| + intsize <= old(c.left)
    ensures ok ==> c.Valid() && c.left == old(c.left) - 4 - |ForwardLength(intsize + 3)|
    ensures ok ==> c.content == old(c.content) + ([OPAQUE] + ForwardLength(intsize + 3)) + [OPAQUE_TAG1, tag, intsize % 256]
  {
    hide ForwardLength;
    ok := HeaderWithRoom(c, OPAQUE, intsize + 3);
    if ok {
      ghost var before := c.content;
      c.Store(OPAQUE_TAG1);
      c.Store(tag);
      c.Store(intsize % 256);
      assert c.content == before + [OPAQUE_TAG1, tag, intsize % 256];
    }
  }

  /** The header, in the form the type asks for, of `intsize` content octets. */
  method Header64(c: Cursor, tag: Byte, intsize: nat, ghost s: seq<Byte>) returns (ok: bool)
    requires c.Valid() && |s| == intsize
    modifies c, c.buf
    ensures var e := if tag == OPAQUE_COUNTER64 || tag == OPAQUE_U64 then ForwardTlv(OPAQUE, OpaqueWrapped(tag, s))
                     else ForwardTlv(tag, s);
            && (ok <==> |e| <= old(c.left))
            && (ok ==> c.Valid() && c.content + s == old(c.content) + e && c.left == old(c.left) - |e| + intsize)
  {
    hide ForwardLength;
    if tag == OPAQUE_COUNTER64 || tag == OPAQUE_U64 {
      SpecialJoins(c.content, tag, s);
      ok := SpecialHeader(c, tag, intsize);
    } else {
      ContentJoins(c.content, tag, s);
      ok := HeaderWithRoom(c, tag, intsize);
    }
  }

  /** Asn01_buildUnsignedInt64 */
  method BuildUnsignedInt64(c: Cursor, tag: Byte, v: Counter64) returns (ok: bool)
    requires c.Valid()
    modifies c, c.buf
    ensures c.Appended(ForwardUnsigned64(tag, v), ok)
  {
    hide ForwardLength, TwosContent, Aligned, ForwardTlv;
    if v.high >= TWO_31 {
      ghost var s := PairBytes(v);
      NullOctetContent(v, s);
      ok := Header64(c, tag, 9, [0] + s);
      if ok {
        Assoc(c.content, [0], s);
        c.Store(0);
        ShiftOutHalves(c, v.high, v.low, 8, s);
      }
    } else {
      PlainContent(v);
      var high, low, intsize := StripHalves(v);
      ghost var s := TwosContent(v.Signed());
      ok := Header64(c, tag, intsize, s);
      if ok {
        ShiftOutHalves(c, high, low, intsize, s);
      }
    }
  }

  /** Asn01_buildSignedInt64 */
  method BuildSignedInt64(c: Cursor, v: Counter64) returns (ok: bool)
    requires c.Valid()
    modifies c, c.buf
    ensures c.Appended(ForwardSigned64(v), ok)
  {
    hide ForwardLength, TwosContent, Aligned;
    var high, low, intsize := StripHalves(v);
    ghost var s := TwosContent(v.Signed());
    SpecialJoins(c.content, OPAQUE_I64, s);
    ok := SpecialHeader(c, OPAQUE_I64, intsize);
    if ok {
      ShiftOutHalves(c, high, low, intsize, s);
    }
  }
}
