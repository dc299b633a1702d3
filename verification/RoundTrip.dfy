/** Parsing what a builder made gives the value back, whatever octets follow it. */
module RoundTrip {
  import opened Bytes
  import opened Ber
  import opened Tags
  import opened ReverseInt64
  import opened ReverseReals
  import opened ParseSpec

  // ----- length octets ------------------------------------------------------------------

  /** Every length a size_t can hold parses back exactly when it does not look negative. */
  lemma LengthRoundTrip(n: ULong, rest: seq<Byte>)
    ensures ParseLength(EncLength(n) + rest) ==
      if n < TWO_63 then Some(Item(n, |EncLength(n)|)) else None
  {
    var d := EncLength(n) + rest;
    if n >= 128 {
      var b := Base256(n);
      Pow256Values();
      Base256Length(n, 8);
      assert d[0] == 128 + |b|;
      assert d[1..1 + |b|] == b;
      Base256Value(n);
    }
  }

  lemma HeadRoundTrip(tag: Byte, c: seq<Byte>, rest: seq<Byte>, len: nat)
    requires |c| <= MAX_LENGTH && |Tlv(tag, c)| <= len
    ensures var h := 1 + |EncLength(|c|)|;
            && h + |c| == |Tlv(tag, c)|
            && ParseHead(Tlv(tag, c) + rest, len) == Some(Head(tag, |c|, h))
            && (Tlv(tag, c) + rest)[h..] == c + rest
            && ContentOf(Tlv(tag, c) + rest, Head(tag, |c|, h)) == Some(c)
  {
    var d := Tlv(tag, c) + rest;
    assert d[1..] == EncLength(|c|) + (c + rest);
    LengthRoundTrip(|c|, c + rest);
    EncLengthShort(|c|);
    var h := 1 + |EncLength(|c|)|;
    assert d[h..] == c + rest;
    assert d[h..h + |c|] == c;
  }

  lemma EncLengthShort(n: nat)
    requires n <= MAX_LENGTH
    ensures |EncLength(n)| <= 5
  {
    Pow256Values();
    Base256Length(n, 4);
  }

  // ----- integers -----------------------------------------------------------------------

  lemma ContentShort(v: int, k: nat)
    requires 1 <= k && -128 * Pow256(k - 1) <= v < 128 * Pow256(k - 1) && k <= 9
    ensures 1 <= |TwosContent(v)| <= k && SignedVal(TwosContent(v)) == v
  {
    TwosLength(v, k);
    TwosValue(v);
  }

  lemma Content32(v: int)
    requires -TWO_32 < v < TWO_32
    ensures 1 <= |TwosContent(v)| <= 5 && SignedVal(TwosContent(v)) == v
  {
    Pow256Values();
    ContentShort(v, 5);
  }

  /** A built INTEGER comes back as the overflow macro leaves it, applied at both ends. */
  lemma IntRoundTrip(value: Long, rest: seq<Byte>, len: nat)
    requires var e := Tlv(INTEGER, TwosContent(Overflow32(value))); |e| <= len
    ensures var e := Tlv(INTEGER, TwosContent(Overflow32(value)));
            ParseInt(e + rest, len) == Some(Parsed(Overflow32(Overflow32(value)), |e|, len - |e|))
  {
    hide ParseHead, ContentOf, TwosContent, SignedVal, Tlv;
    Content32(Overflow32(value));
    HeadRoundTrip(INTEGER, TwosContent(Overflow32(value)), rest, len);
  }

  /** So a `long` survives exactly when it lies between the least int32 and the greatest uint32. */
  lemma IntSurvives(value: Long)
    ensures Overflow32(Overflow32(value)) == value <==> -TWO_31 <= value < TWO_32
    ensures -TWO_31 <= value < TWO_32 ==> Overflow32(value) == value
  {
  }

  lemma UnsignedRoundTrip(tag: Byte, value: ULong, rest: seq<Byte>, len: nat)
    requires IsUnsignedTag(tag)
    requires var e := Tlv(tag, TwosContent(Overflow32U(value))); |e| <= len
    ensures var e := Tlv(tag, TwosContent(Overflow32U(value)));
            ParseUnsignedInt(e + rest, len) == Some(Parsed((tag, Overflow32U(value)), |e|, len - |e|))
    ensures Overflow32U(value) == value <==> value < TWO_32
  {
    hide ParseHead, ContentOf, TwosContent, SignedVal, Tlv;
    Content32(Overflow32U(value));
    HeadRoundTrip(tag, TwosContent(Overflow32U(value)), rest, len);
  }

  lemma StringRoundTrip(tag: Byte, s: seq<Byte>, rest: seq<Byte>, len: nat, capacity: nat)
    requires IsStringTag(tag) && |s| <= capacity && |s| <= MAX_LENGTH && |Tlv(tag, s)| <= len
    ensures ParseString(Tlv(tag, s) + rest, len, capacity) == Some(Parsed((tag, s), |Tlv(tag, s)|, len - |Tlv(tag, s)|))
  {
    HeadRoundTrip(tag, s, rest, len);
  }

  // ----- 64-bit values ------------------------------------------------------------------

  lemma HalvesOf(c: Counter64)
    ensures Halves(c.Unsigned()) == c && Halves(c.Signed()) == c
  {
    assert c.Unsigned() % TWO_64 == c.Unsigned();
    assert c.Signed() == c.Unsigned() || c.Signed() == c.Unsigned() - TWO_64;
    assert c.Signed() % TWO_64 == c.Unsigned();
  }

  lemma UnsignedContent(v: nat)
    requires v < TWO_64
    ensures var c := TwosContent(v);
            1 <= |c| <= 9 && UVal(c) == v && (|c| == 9 ==> c[0] == 0)
  {
    Pow256Values();
    ContentShort(v, 9);
    var c := TwosContent(v);
    SignedFromUnsigned(c);
    if |c| == 9 {
      assert c == [c[0]] + c[1..];
      UValConcat([c[0]], c[1..]);
      assert UVal([c[0]]) == c[0] by {
        assert [c[0]][..0] == [];
      }
    }
  }

  lemma Content64(v: int)
    requires -TWO_63 <= v < TWO_63
    ensures 1 <= |TwosContent(v)| <= 8 && SignedVal(TwosContent(v)) == v
  {
    Pow256Values();
    ContentShort(v, 8);
  }

  /** The inner header of a special value is found where the outer one ends. */
  lemma InnerRoundTrip(tag: Byte, c: seq<Byte>, rest: seq<Byte>, len: nat)
    requires |c| <= 9 && |Tlv(OPAQUE, OpaqueWrapped(tag, c))| <= len
    ensures var e := Tlv(OPAQUE, OpaqueWrapped(tag, c)) + rest;
            && ParseHead(e, len) == Some(Head(OPAQUE, |c| + 3, 2))
            && |e| >= 5 && e[2] == OPAQUE_TAG1 && e[3] == tag
            && ParseInner(e, Head(OPAQUE, |c| + 3, 2), len) == Some(Head(tag, |c|, 5))
            && ContentOf(e, Head(tag, |c|, 5)) == Some(c)
            && |Tlv(OPAQUE, OpaqueWrapped(tag, c))| == 5 + |c|
  {
    hide ParseHead, ParseLength, Tlv, EncLength, OpaqueWrapped;
    SpecialShape(tag, c, rest);
    HeadRoundTrip(OPAQUE, OpaqueWrapped(tag, c), rest, len);
    ShortLength(|c|, c + rest);
  }

  lemma SpecialShape(tag: Byte, c: seq<Byte>, rest: seq<Byte>)
    requires |c| <= 9
    ensures var w, e := OpaqueWrapped(tag, c), Tlv(OPAQUE, OpaqueWrapped(tag, c)) + rest;
            && |w| == |c| + 3 && |EncLength(|w|)| == 1 && |Tlv(OPAQUE, w)| == 5 + |c|
            && e[2] == OPAQUE_TAG1 && e[3] == tag && e[4..] == [|c|] + (c + rest) && e[5..5 + |c|] == c
  {
    var t := [OPAQUE, |c| + 3, OPAQUE_TAG1, tag];
    var e := Tlv(OPAQUE, OpaqueWrapped(tag, c)) + rest;
    assert Tlv(OPAQUE, OpaqueWrapped(tag, c)) == t + ([|c|] + c);
    Assoc(t, [|c|] + c, rest);
    Assoc([|c|], c, rest);
    AfterFour(t, |c|, c, rest);
  }

  lemma AfterFour(t: seq<Byte>, n: Byte, c: seq<Byte>, rest: seq<Byte>)
    requires |t| == 4
    ensures var e := t + ([n] + (c + rest)); e[..4] == t && e[4..] == [n] + (c + rest) && e[5..5 + |c|] == c
  {
  }

  lemma ShortLength(n: Byte, rest: seq<Byte>)
    requires n < 128
    ensures ParseLength([n] + rest) == Some(Item(n, 1))
  {
  }

  lemma Unsigned64FromParts(d: seq<Byte>, len: nat, outer: Head, h: Head, c: seq<Byte>)
    requires ParseHead(d, len) == Some(outer) && ContentOf(d, h) == Some(c)
    requires |c| <= 8 || (|c| == 9 && c[0] == 0)
    requires || (outer.tag == COUNTER64 && h == outer)
             || (&& outer.tag == OPAQUE && outer.n <= OPAQUE_COUNTER64_MX_BER_LEN
                 && Announces(d, outer.header, {OPAQUE_COUNTER64, OPAQUE_U64}) == Some(true)
                 && ParseInner(d, outer, len) == Some(h))
    ensures ParseUnsignedInt64(d, len) == Some(Parsed((h.tag, Halves(UVal(c))), h.header + h.n, Lowered(len, h)))
  {
    hide ParseHead, ParseInner, ContentOf, Announces, UVal, Halves;
    assert |c| == h.n;
  }

  lemma Unsigned64RoundTrip(tag: Byte, c: Counter64, rest: seq<Byte>, len: nat)
    requires tag == COUNTER64 || tag == OPAQUE_COUNTER64 || tag == OPAQUE_U64
    requires |EncUnsigned64(tag, c)| <= len
    ensures ParseUnsignedInt64(EncUnsigned64(tag, c) + rest, len)
            == Some(Parsed((tag, c), |EncUnsigned64(tag, c)|, len - |EncUnsigned64(tag, c)|))
  {
    hide ParseHead, ParseInner, ContentOf, ParseUnsignedInt64, TwosContent, UVal, Halves, Tlv, Counter64.Unsigned;
    var b, d := TwosContent(c.Unsigned()), EncUnsigned64(tag, c) + rest;
    UnsignedContent(c.Unsigned());
    HalvesOf(c);
    if tag == COUNTER64 {
      HeadRoundTrip(tag, b, rest, len);
      var h := Head(tag, |b|, 1 + |EncLength(|b|)|);
      Unsigned64FromParts(d, len, h, h, b);
    } else {
      InnerRoundTrip(tag, b, rest, len);
      Unsigned64FromParts(d, len, Head(OPAQUE, |b| + 3, 2), Head(tag, |b|, 5), b);
    }
  }

  lemma Signed64FromParts(d: seq<Byte>, len: nat, outer: Head, h: Head, c: seq<Byte>)
    requires ParseHead(d, len) == Some(outer) && ContentOf(d, h) == Some(c)
    requires 1 <= |c| <= 8
    requires outer.tag == OPAQUE && outer.n <= OPAQUE_COUNTER64_MX_BER_LEN
    requires Announces(d, outer.header, {OPAQUE_I64}) == Some(true) && ParseInner(d, outer, len) == Some(h)
    ensures ParseSignedInt64(d, len) == Some(Parsed((h.tag, Halves(SignedVal(c))), h.header + h.n, Lowered(len, h)))
  {
    hide ParseHead, ParseInner, ContentOf, Announces, SignedVal, Halves;
    assert |c| == h.n && h.header + h.n <= |d|;
  }

  lemma Signed64RoundTrip(c: Counter64, rest: seq<Byte>, len: nat)
    requires |EncSigned64(c)| <= len
    ensures ParseSignedInt64(EncSigned64(c) + rest, len)
            == Some(Parsed((OPAQUE_I64, c), |EncSigned64(c)|, len - |EncSigned64(c)|))
  {
    hide ParseHead, ParseInner, ContentOf, ParseSignedInt64, TwosContent, SignedVal, Halves, Tlv, Counter64.Signed;
    var b := TwosContent(c.Signed());
    Content64Signed(c);
    HalvesOf(c);
    InnerRoundTrip(OPAQUE_I64, b, rest, len);
    Signed64FromParts(EncSigned64(c) + rest, len, Head(OPAQUE, |b| + 3, 2), Head(OPAQUE_I64, |b|, 5), b);
  }

  lemma Content64Signed(c: Counter64)
    ensures 1 <= |TwosContent(c.Signed())| <= 8 && SignedVal(TwosContent(c.Signed())) == c.Signed()
  {
    Content64(c.Signed());
  }

  // ----- bit strings, floats and doubles ------------------------------------------------

  /** A bit string comes back exactly when it is not empty: the reverse builder builds an empty one,
      but no parser takes it. */
  lemma BitstringRoundTrip(s: seq<Byte>, rest: seq<Byte>, len: nat, capacity: nat)
    requires |s| <= capacity && |s| <= MAX_LENGTH && |Tlv(BIT_STR, s)| <= len
    ensures ParseBitstring(Tlv(BIT_STR, s) + rest, len, capacity)
            == if s == [] then None else Some(Parsed(s, |Tlv(BIT_STR, s)|, len - |Tlv(BIT_STR, s)|))
  {
    hide ParseHead, ContentOf, Tlv;
    HeadRoundTrip(BIT_STR, s, rest, len);
  }

  lemma RealFromParts(d: seq<Byte>, len: nat, tag: Byte, c: seq<Byte>)
    requires ParseHead(d, len) == Some(Head(OPAQUE, |c| + 3, 2)) && Announces(d, 2, {tag}) == Some(true)
    requires ParseInner(d, Head(OPAQUE, |c| + 3, 2), len) == Some(Head(tag, |c|, 5))
    requires ContentOf(d, Head(tag, |c|, 5)) == Some(c)
    ensures ParseReal(d, len, tag, |c|) == Some(Parsed(c, 5, Lowered(len, Head(tag, |c|, 5))))
  {
    hide ParseHead, ParseInner, Announces, ContentOf;
  }

  lemma RealRoundTrip(tag: Byte, c: seq<Byte>, rest: seq<Byte>, len: nat)
    requires |c| <= 9 && |Tlv(OPAQUE, OpaqueWrapped(tag, c))| <= len
    ensures var e := Tlv(OPAQUE, OpaqueWrapped(tag, c));
            |e| == 5 + |c| && ParseReal(e + rest, len, tag, |c|) == Some(Parsed(c, 5, len - |e|))
  {
    hide ParseHead, ParseInner, ContentOf, ParseReal, Tlv, OpaqueWrapped;
    InnerRoundTrip(tag, c, rest, len);
    RealFromParts(Tlv(OPAQUE, OpaqueWrapped(tag, c)) + rest, len, tag, c);
  }

  /** Every bit pattern comes back; the pointer that is returned stands in front of the content. */
  lemma FloatRoundTrip(f: SubId, rest: seq<Byte>, len: nat)
    requires |EncFloat(f)| <= len
    ensures ParseFloat(EncFloat(f) + rest, len) == Some(Parsed(f, |EncFloat(f)| - 4, len - |EncFloat(f)|))
  {
    hide ParseReal, Tlv, OpaqueWrapped, NetworkOrder, HostOrder;
    RealRoundTrip(OPAQUE_FLOAT, NetworkOrder(f), rest, len);
    NetworkOrderRoundTrip(f);
  }

  lemma DoubleRoundTrip(d: Counter64, rest: seq<Byte>, len: nat)
    requires |EncDouble(d)| <= len
    ensures ParseDouble(EncDouble(d) + rest, len) == Some(Parsed(d, |EncDouble(d)| - 8, len - |EncDouble(d)|))
  {
    hide ParseReal, Tlv, OpaqueWrapped, NetworkOrder, HostOrder;
    var c := DoubleOctets(d);
    RealRoundTrip(OPAQUE_DOUBLE, c, rest, len);
    assert c[..4] == NetworkOrder(d.high) && c[4..] == NetworkOrder(d.low);
    NetworkOrderRoundTrip(d.high);
    NetworkOrderRoundTrip(d.low);
  }

  // ----- object identifiers -------------------------------------------------------------

  lemma {:induction false} GroupOf(s: seq<Byte>, t: seq<Byte>)
    requires WellFormedSubId(s) || (s != [] && s[|s| - 1] < 128 && forall i :: 0 <= i < |s| - 1 ==> s[i] >= 128)
    ensures FirstGroup(s + t) == |s|
  {
    assert (s + t)[0] == s[0];
    if |s| > 1 {
      GroupOf(s[1..], t);
      assert (s + t)[1..] == s[1..] + t;
    }
  }

  lemma DecodeGroup(e: seq<Byte>, n: SubId, rest: seq<Byte>, slots: nat)
    requires WellFormedSubId(e) && Val128(e) == n
    ensures DecodeSubIds(e + rest, slots) ==
      if slots == 0 || DecodeSubIds(rest, slots - 1).None? then None
      else Some([n] + DecodeSubIds(rest, slots - 1).value)
  {
    hide FirstGroup, Val128;
    var c := e + rest;
    GroupOf(e, rest);
    assert c[..|e|] == e && c[|e|..] == rest;
  }

  /** Decoding sub-identifier octets gives the sub-identifiers back when there are slots enough. */
  lemma {:induction false} SubIdsRoundTrip(ns: ObjectId, slots: nat)
    ensures DecodeSubIds(EncSubIds(ns), slots) == if |ns| <= slots then Some(ns) else None
  {
    hide EncSubId, WellFormedSubId, FirstGroup, Val128;
    if ns != [] {
      EncSubIdWellFormed(ns[0]);
      DecodeGroup(EncSubId(ns[0]), ns[0], EncSubIds(ns[1..]), slots);
      if slots > 0 {
        SubIdsRoundTrip(ns[1..], slots - 1);
        assert [ns[0]] + ns[1..] == ns;
      }
    }
  }

  /** The object identifiers that survive: those whose first two sub-identifiers combine to a
      number that says which they were. */
  predicate Splittable(o: ObjectId) {
    && |o| >= 2
    && (o[0] < 2 ==> o[1] < 40)
    && (o[0] == 2 ==> o[1] < TWO_32 - 80)
  }

  lemma {:induction false} OidContentBound(ns: ObjectId)
    ensures |ns| <= |EncSubIds(ns)| <= 5 * |ns|
  {
    if ns != [] {
      SubIdOctets(ns[0]);
      OidContentBound(ns[1..]);
    }
  }

  /** The sub-identifiers the reverse builder's content octets spell out. */
  function Spelled(o: ObjectId): ObjectId
    ensures |Spelled(o)| >= 1
  {
    if |o| == 0 then [0, 0] else if |o| == 1 then o else Combined(o)
  }

  lemma ContentSpells(o: ObjectId)
    requires Buildable(o)
    ensures OidContent(o) == EncSubIds(Spelled(o)) != []
  {
    OidContentBound(Spelled(o));
    if |o| <= 1 {
      var first := Spelled(o);
      assert EncSubId(first[0]) == [first[0]];
      assert |o| == 0 ==> first[1..] == [0] && [0][1..] == [] && EncSubId(0) == [0];
      assert |o| == 1 ==> first[1..] == [];
    }
  }

  lemma OidFromContent(c: seq<Byte>, first: ObjectId, d: seq<Byte>, len: nat)
    requires c != [] && |first| >= 1
    requires ParseHead(d, len).Some? && ParseHead(d, len).value.tag == OBJECT_ID
    requires ContentOf(d, ParseHead(d, len).value) == Some(c)
    requires DecodeSubIds(c, MAX_OID_LEN - 1) == if |first| <= MAX_OID_LEN - 1 then Some(first) else None
    ensures var h := ParseHead(d, len).value;
            ParseObjid(d, len, MAX_OID_LEN)
            == if |first| <= MAX_OID_LEN - 1
               then Some(Parsed(SplitFirst(first[0]) + first[1..], h.header + h.n, Lowered(len, h))) else None
  {
    hide ParseHead, ContentOf, DecodeSubIds, SplitFirst;
  }

  /** Parsing a built OID into 128 slots: what comes back, for every OID that can be built. */
  lemma OidParsesTo(o: ObjectId, rest: seq<Byte>, len: nat)
    requires Buildable(o) && |OidContent(o)| <= MAX_LENGTH && |Tlv(OBJECT_ID, OidContent(o))| <= len
    ensures var e := Tlv(OBJECT_ID, OidContent(o));
            ParseObjid(e + rest, len, MAX_OID_LEN)
            == if |Spelled(o)| <= MAX_OID_LEN - 1
               then Some(Parsed(SplitFirst(Spelled(o)[0]) + Spelled(o)[1..], |e|, len - |e|)) else None
  {
    hide OidContent, EncSubIds, DecodeSubIds, Spelled, ParseHead, ContentOf, ParseObjid, Tlv;
    var c, first := OidContent(o), Spelled(o);
    ContentSpells(o);
    HeadRoundTrip(OBJECT_ID, c, rest, len);
    SubIdsRoundTrip(first, MAX_OID_LEN - 1);
    assert DecodeSubIds(c, MAX_OID_LEN - 1) == if |first| <= MAX_OID_LEN - 1 then Some(first) else None;
    OidFromContent(c, first, Tlv(OBJECT_ID, c) + rest, len);
  }

  /** An OID survives building and parsing exactly when it is splittable and has at most 128
      sub-identifiers. */
  lemma OidRoundTrip(o: ObjectId, rest: seq<Byte>, len: nat)
    requires Buildable(o) && |OidContent(o)| <= MAX_LENGTH && |Tlv(OBJECT_ID, OidContent(o))| <= len
    ensures var e := Tlv(OBJECT_ID, OidContent(o));
            ParseObjid(e + rest, len, MAX_OID_LEN) == Some(Parsed(o, |e|, len - |e|)) <==> Splittable(o) && |o| <= MAX_OID_LEN
  {
    OidParsesTo(o, rest, len);
    if |o| >= 2 {
      var back := SplitFirst(FirstTwo(o)) + Combined(o)[1..];
      assert Combined(o)[1..] == o[2..];
      assert o == o[..2] + o[2..];
      assert back[..2] == SplitFirst(FirstTwo(o));
      FirstTwoSplits(o);
      assert SplitFirst(FirstTwo(o)) == o[..2] <==> back == o;
    }
  }

  lemma FirstTwoSplits(o: ObjectId)
    requires |o| >= 2 && Buildable(o)
    ensures SplitFirst(FirstTwo(o)) == o[..2] <==> Splittable(o)
  {
    var s := SplitFirst(FirstTwo(o));
    assert s == o[..2] <==> s[0] == o[0] && s[1] == o[1];
  }
}
