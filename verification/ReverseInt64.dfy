/** Reverse builders for 64-bit values kept as two 32-bit halves. */
module ReverseInt64 {
  import opened Bytes
  import opened Ber
  import opened Tags
  import opened ReverseBuffer
  import opened ReverseEncode

  datatype Counter64 = Counter64(high: SubId, low: SubId) {
    /** The unsigned number the halves stand for. */
    function Unsigned(): (u: nat)
      ensures u < TWO_64
    {
      high * TWO_32 + low
    }

    /** The signed number the halves stand for. */
    function Signed(): (s: int)
      ensures -TWO_63 <= s < TWO_63
    {
      Int32(high) * TWO_32 + low
    }
  }

  /** Conversion of a 32-bit pattern to int32_t. */
  function Int32(x: SubId): int {
    if x >= TWO_31 then x - TWO_32 else x
  }

  /** The special form of a 64-bit value inside an Opaque. */
  function OpaqueWrapped(tag: Byte, content: seq<Byte>): seq<Byte> {
    [OPAQUE_TAG1, tag, |content| % 256] + content
  }

  function EncUnsigned64(tag: Byte, c: Counter64): seq<Byte> {
    if tag == OPAQUE_COUNTER64 || tag == OPAQUE_U64
    then Tlv(OPAQUE, OpaqueWrapped(tag, TwosContent(c.Unsigned())))
    else Tlv(tag, TwosContent(c.Unsigned()))
  }

  function EncSigned64(c: Counter64): seq<Byte> {
    Tlv(OPAQUE, OpaqueWrapped(OPAQUE_I64, TwosContent(c.Signed())))
  }

  /** Pads with n sign octets: the `for ( ; count < 4; count++ )` loops. */
  method Pad(p: Packet, r: bool, n: nat, b: Byte) returns (ok: bool)
    requires p.Valid()
    modifies p, p.pkt
    ensures p.Prepended(Copies(n, b), r, ok)
  {
    hide Copies;
    var i := 0;
    ok := true;
    assert Copies(0, b) + p.content == p.content;
    while i < n
      invariant 0 <= i <= n && ok
      invariant p.Valid() && (p.pkt == old(p.pkt) || fresh(p.pkt)) && (!r ==> p.pkt == old(p.pkt))
      invariant p.content == Copies(i, b) + old(p.content)
      invariant r || i <= old(p.Room())
    {
      ok := p.Put(b, r);
      if !ok {
        return;
      }
      CopiesNext(i, b);
      Assoc([b], Copies(i, b), old(p.content));
      i := i + 1;
    }
  }

  /** The low octets of the number are those of its low half, taken signed or unsigned. */
  lemma LowOctets(high: int, low: SubId, k: nat)
    requires k <= 4
    ensures FixedBytes(high * TWO_32 + low, k) == FixedBytes(low, k) == FixedBytes(Int32(low), k)
  {
    Pow256Values();
    var p := Pow256(4 - k);
    Pow256Product(4 - k, k);
    assert high * TWO_32 == (high * p) * Pow256(k);
    FixedBytesPeriodic(low, high * p, k);
    assert -TWO_32 == -p * Pow256(k);
    FixedBytesPeriodic(low, -p, k);
  }

  lemma HighByShift(high: int, low: SubId)
    ensures Shr(high * TWO_32 + low, 4) == high
  {
    var v := high * TWO_32 + low;
    assert Shr(v, 4) == v / 256 / 256 / 256 / 256;
    assert v / 256 / 256 / 256 / 256 == v / TWO_32;
  }

  /** Emitting the low half, padding it to four octets and emitting the high half is the same
      as emitting the whole number. */
  lemma HalvesShiftedOut(high: int, low: SubId, k: nat, testvalue: int)
    requires testvalue == if high < 0 then -1 else 0
    requires high != testvalue && 1 <= k <= 4
    requires k < 4 ==> Shr(Int32(low), k) == testvalue
    ensures ShiftedOut(high) + (Copies(4 - k, SignOctet(testvalue)) + FixedBytes(low, k))
            == ShiftedOut(high * TWO_32 + low)
  {
    hide ShiftedOut, Digits, FixedBytes, Shr, Copies, SignOctet, Int32;
    var v := high * TWO_32 + low;
    HighByShift(high, low);
    ShrNotSign(v, 4);
    ShiftedOutAfter(v, 4);
    LowOctets(high, low, 4);
    PaddedLow(low, k, testvalue);
    NotOnlySign(high);
  }

  lemma NotOnlySign(v: int)
    requires v != 0 && v != -1
    ensures ShiftedOut(v) == Digits(v)
  {
  }

  /** A low half of fewer octets, padded to four. */
  lemma PaddedLow(low: SubId, k: nat, testvalue: int)
    requires (testvalue == 0 || testvalue == -1) && 1 <= k <= 4 && (k < 4 ==> Shr(Int32(low), k) == testvalue)
    ensures Copies(4 - k, SignOctet(testvalue)) + FixedBytes(low, k) == FixedBytes(low, 4)
  {
    hide FixedBytes, Shr, SignOctet, Int32;
    LowOctets(0, low, 4);
    LowOctets(0, low, k);
    if k < 4 {
      FixedBytesSplit(Int32(low), 4 - k, k);
      FixedBytesOfSign(testvalue, 4 - k);
    }
  }

  lemma {:induction false} ShrNotSign(v: int, n: nat)
    requires n >= 1 && Shr(v, n) != 0 && Shr(v, n) != -1
    ensures Shr(v, n - 1) != 0 && Shr(v, n - 1) != -1
    decreases n
  {
    if n > 1 {
      ShrNotSign(v / 256, n - 1);
    }
  }

  /** How many octets of the low half the signed builder emits before it looks at the high half. */
  function LowCount(low: int, testvalue: int): nat {
    if Shr(low, 1) == testvalue then 1
    else if Shr(low, 2) == testvalue then 2
    else if Shr(low, 3) == testvalue then 3
    else 4
  }

  method EmitLowHalf(p: Packet, r: bool, value: int, testvalue: int) returns (ok: bool, count: nat)
    requires p.Valid()
    modifies p, p.pkt
    ensures p.Prepended(FixedBytes(value, LowCount(value, testvalue)), r, ok)
    ensures count <= LowCount(value, testvalue) && (ok ==> count == LowCount(value, testvalue))
  {
    hide FixedBytes, Shr, LowCount;
    var low := value;
    count := 0;
    FirstOctet(value);
    LowCountReached(value, testvalue, 1);
    ok := p.Put(low % 256, r);
    if !ok {
      return;
    }
    low, count := low / 256, 1;
    while low != testvalue && count < 4
      invariant 1 <= count <= LowCount(value, testvalue) && low == Shr(value, count)
      invariant p.Valid() && (p.pkt == old(p.pkt) || fresh(p.pkt)) && (!r ==> p.pkt == old(p.pkt))
      invariant p.content == FixedBytes(value, count) + old(p.content)
      invariant r || count <= old(p.Room())
      decreases 4 - count
    {
      LowCountReached(value, testvalue, count);
      FixedBytesStep(value, count);
      Assoc([low % 256], FixedBytes(value, count), old(p.content));
      ok := p.Put(low % 256, r);
      if !ok {
        return;
      }
      low, count := low / 256, count + 1;
    }
    LowCountReached(value, testvalue, count);
    ok := true;
  }

  lemma FirstOctet(v: int)
    ensures FixedBytes(v, 1) == [v % 256] && Shr(v, 1) == v / 256
  {
    assert FixedBytes(v / 256, 0) == [] && Shr(v / 256, 0) == v / 256;
  }

  lemma LowCountReached(v: int, testvalue: int, count: nat)
    requires 1 <= count <= 4
    ensures 1 <= LowCount(v, testvalue) <= 4
    ensures count <= LowCount(v, testvalue) && (Shr(v, count) == testvalue || count == 4) ==>
              count == LowCount(v, testvalue)
    ensures count <= LowCount(v, testvalue) && Shr(v, count) != testvalue && count < 4 ==>
              count < LowCount(v, testvalue)
  {
    hide Shr;
  }

  lemma {:induction false} FixedBytesStep(v: int, n: nat)
    ensures FixedBytes(v, n + 1) == [Shr(v, n) % 256] + FixedBytes(v, n)
    ensures Shr(v, n + 1) == Shr(v, n) / 256
    decreases n
  {
    if n > 0 {
      FixedBytesStep(v / 256, n - 1);
    }
  }

  /** With nothing but sign in the high half, the low half alone is the number. */
  lemma LowHalfAlone(low: SubId, testvalue: int)
    requires testvalue == 0 || testvalue == -1
    ensures var k := LowCount(Int32(low), testvalue);
            FixedBytes(Int32(low), k) == ShiftedOut(testvalue * TWO_32 + low)
  {
    hide Shr, FixedBytes, ShiftedOut, Int32;
    var v := testvalue * TWO_32 + low;
    var k := LowCount(Int32(low), testvalue);
    LowOctets(testvalue, low, k);
    LowCountOfNumber(low, testvalue);
    ShiftedOutAfter(v, k);
    assert Digits(testvalue) == [];
  }

  /** After as many shifts nothing but sign is left of the whole number, and not before. */
  lemma LowCountOfNumber(low: SubId, testvalue: int)
    requires testvalue == 0 || testvalue == -1
    ensures var k, v := LowCount(Int32(low), testvalue), testvalue * TWO_32 + low;
            && Shr(v, k) == testvalue
            && (k > 1 ==> Shr(v, k - 1) != 0 && Shr(v, k - 1) != -1)
  {
    var l, v := Int32(low), testvalue * TWO_32 + low;
    HighByShift(testvalue, low);
    ShrValues(l);
    ShrValues(v);
  }

  lemma ShrValues(v: int)
    ensures Shr(v, 1) == v / 0x100 && Shr(v, 2) == v / 0x1_0000 && Shr(v, 3) == v / 0x100_0000
  {
    assert Shr(v, 3) == Shr(v / 256, 2) == Shr(v / 256 / 256, 1);
  }

  /** The content octets of a signed 64-bit number. */
  method RbuildSignedHalves(p: Packet, r: bool, c: Counter64) returns (ok: bool)
    requires p.Valid()
    modifies p, p.pkt
    ensures p.Prepended(TwosContent(c.Signed()), r, ok)
  {
    var high := Int32(c.high);
    var testvalue := if high < 0 then -1 else 0;
    SignedContent(c.Signed(), testvalue, p.content);
    ok := EmitHalves(p, r, Int32(c.low), high, testvalue, c);
    if ok {
      ok := FixSign(p, r, testvalue, ShiftedOut(c.Signed()));
    }
  }

  method EmitHalves(p: Packet, r: bool, low: int, high: int, testvalue: int, ghost c: Counter64) returns (ok: bool)
    requires p.Valid()
    requires low == Int32(c.low) && high == Int32(c.high) && testvalue == if high < 0 then -1 else 0
    modifies p, p.pkt
    ensures p.Prepended(ShiftedOut(c.Signed()), r, ok)
  {
    var count;
    ghost var k := LowCount(low, testvalue);
    HalvesJoin(c, testvalue);
    ok, count := EmitLowHalf(p, r, low, testvalue);
    if high != testvalue && ok {
      var sign := if testvalue == 0 then 0 else 0xff;
      ok := PadAndEmit(p, r, 4 - count, sign, high, old(p.content), FixedBytes(low, k));
    }
  }

  lemma HalvesJoin(c: Counter64, testvalue: int)
    requires testvalue == if Int32(c.high) < 0 then -1 else 0
    ensures var high, low := Int32(c.high), Int32(c.low);
            var k := LowCount(low, testvalue);
            var s := ShiftedOut(c.Signed());
            if high == testvalue then FixedBytes(low, k) == s && |s| == k
            else && ShiftedOut(high) + (Copies(4 - k, SignOctet(testvalue)) + FixedBytes(low, k)) == s
                 && |s| == |ShiftedOut(high)| + 4
  {
    var high, low := Int32(c.high), Int32(c.low);
    var k := LowCount(low, testvalue);
    if high == testvalue {
      LowHalfAlone(c.low, testvalue);
    } else {
      LowOctets(high, c.low, k);
      HalvesShiftedOut(high, c.low, k, testvalue);
    }
  }

  /** The octets missing from the low half, then the high half. */
  method PadAndEmit(p: Packet, r: bool, n: nat, sign: Byte, high: int, ghost c: seq<Byte>, ghost low: seq<Byte>)
      returns (ok: bool)
    requires p.Valid() && p.content == low + c
    modifies p, p.pkt
    ensures p.Prepended(ShiftedOut(high) + Copies(n, sign), r, ok)
    ensures ok ==> p.content == (ShiftedOut(high) + (Copies(n, sign) + low)) + c
  {
    hide ShiftedOut, Copies;
    Assoc(Copies(n, sign), low, c);
    Assoc(ShiftedOut(high), Copies(n, sign) + low, c);
    Assoc(ShiftedOut(high), Copies(n, sign), low + c);
    ok := Pad(p, r, n, sign);
    if ok {
      ok := EmitShifted(p, r, high);
    }
  }

  lemma LowShiftedOut(low: SubId)
    ensures 1 <= |ShiftedOut(low)| <= 4
    ensures ShiftedOut(low) == FixedBytes(low, |ShiftedOut(low)|)
    ensures |ShiftedOut(low)| < 4 ==> Shr(Int32(low), |ShiftedOut(low)|) == 0
  {
    ShrValues(low);
    HighByShift(0, low);
    var k := LowCount(low, 0);
    ShiftedOutAfter(low, k);
    assert Digits(Shr(low, k)) == [];
  }

  /** The content octets of an unsigned 64-bit number. */
  method RbuildUnsignedHalves(p: Packet, r: bool, c: Counter64) returns (ok: bool)
    requires p.Valid()
    modifies p, p.pkt
    ensures p.Prepended(TwosContent(c.Unsigned()), r, ok)
  {
    SignedContent(c.Unsigned(), 0, p.content);
    ok := EmitUnsignedHalves(p, r, c);
    if ok {
      ok := FixSign(p, r, 0, ShiftedOut(c.Unsigned()));
    }
  }

  lemma UnsignedJoin(c: Counter64)
    ensures var s, low := ShiftedOut(c.Unsigned()), ShiftedOut(c.low);
            && |low| <= 4
            && if c.high == 0 then s == low
               else s == ShiftedOut(c.high) + (Copies(4 - |low|, 0) + low) && |s| == |ShiftedOut(c.high)| + 4
  {
    hide ShiftedOut, FixedBytes, Shr, Copies, Int32;
    LowShiftedOut(c.low);
    if c.high != 0 {
      HalvesShiftedOut(c.high, c.low, |ShiftedOut(c.low)|, 0);
    }
  }

  method EmitUnsignedHalves(p: Packet, r: bool, c: Counter64) returns (ok: bool)
    requires p.Valid()
    modifies p, p.pkt
    ensures p.Prepended(ShiftedOut(c.Unsigned()), r, ok)
  {
    hide ShiftedOut, Copies, Counter64.Unsigned;
    var start := p.offset;
    UnsignedJoin(c);
    ok := EmitShifted(p, r, c.low);
    if c.high != 0 && ok {
      ok := PadAndEmit(p, r, 4 - (p.offset - start), 0, c.high, old(p.content), ShiftedOut(c.low));
    }
  }

  /** Tag and length of the special form; room is made for the Opaque header as well. */
  method PutSpecial(p: Packet, r: bool, tag: Byte, intsize: nat) returns (ok: bool)
    requires p.Valid()
    modifies p, p.pkt
    ensures p.Valid() && (p.pkt == old(p.pkt) || fresh(p.pkt)) && (!r ==> p.pkt == old(p.pkt))
    ensures ok <==> r || 5 <= old(p.Room())
    ensures ok ==> p.content == [OPAQUE_TAG1, tag, intsize % 256] + old(p.content) && p.Room() >= 2
  {
    ok := p.MakeRoom(5, r);
    if ok {
      p.Store(intsize % 256);
      p.Store(tag);
      p.Store(OPAQUE_TAG1);
    }
  }

  /** The special form and the Opaque header around it. */
  method WrapOpaque(p: Packet, r: bool, tag: Byte, intsize: nat) returns (ok: bool)
    requires p.Valid() && intsize + 3 < 128
    modifies p, p.pkt
    ensures p.Prepended([OPAQUE, intsize + 3, OPAQUE_TAG1, tag, intsize], r, ok)
  {
    assert EncLength(intsize + 3) == [intsize + 3];
    Assoc([OPAQUE, intsize + 3], [OPAQUE_TAG1, tag, intsize], p.content);
    ok := PutSpecial(p, r, tag, intsize);
    if ok {
      ok := BuildHeader(p, r, OPAQUE, intsize + 3);
    }
  }

  lemma WrapJoins(tag: Byte, enc: seq<Byte>, c: seq<Byte>)
    requires |enc| <= 9
    ensures [OPAQUE, |enc| + 3, OPAQUE_TAG1, tag, |enc|] + (enc + c) == Tlv(OPAQUE, OpaqueWrapped(tag, enc)) + c
    ensures |Tlv(OPAQUE, OpaqueWrapped(tag, enc))| == 5 + |enc|
  {
    assert Tlv(OPAQUE, OpaqueWrapped(tag, enc)) == [OPAQUE, |enc| + 3, OPAQUE_TAG1, tag, |enc|] + enc;
  }

  lemma Content64Length(c: Counter64)
    ensures |TwosContent(c.Unsigned())| <= 9 && |TwosContent(c.Signed())| <= 8
  {
    Pow256Values();
    TwosLength(c.Unsigned(), 9);
    TwosLength(c.Signed(), 8);
  }

  /** Asn01_reallocRbuildUnsignedInt64 */
  method RbuildUnsignedInt64(p: Packet, r: bool, tag: Byte, c: Counter64) returns (ok: bool)
    requires p.Valid()
    modifies p, p.pkt
    ensures p.Prepended(EncUnsigned64(tag, c), r, ok)
  {
    var start := p.offset;
    Content64Length(c);
    WrapJoins(tag, TwosContent(c.Unsigned()), p.content);
    HeaderJoins(tag, TwosContent(c.Unsigned()), p.content);
    ok := RbuildUnsignedHalves(p, r, c);
    if ok {
      var intsize := p.offset - start;
      if tag == OPAQUE_COUNTER64 {
        ok := WrapOpaque(p, r, OPAQUE_COUNTER64, intsize);
      } else if tag == OPAQUE_U64 {
        ok := WrapOpaque(p, r, OPAQUE_U64, intsize);
      } else {
        ok := BuildHeader(p, r, tag, intsize);
      }
    }
  }

  /** Asn01_reallocRbuildSignedInt64 */
  method RbuildSignedInt64(p: Packet, r: bool, c: Counter64) returns (ok: bool)
    requires p.Valid()
    modifies p, p.pkt
    ensures p.Prepended(EncSigned64(c), r, ok)
  {
    var start := p.offset;
    Content64Length(c);
    WrapJoins(OPAQUE_I64, TwosContent(c.Signed()), p.content);
    ok := RbuildSignedHalves(p, r, c);
    if ok {
      ok := WrapOpaque(p, r, OPAQUE_I64, p.offset - start);
    }
  }
}
