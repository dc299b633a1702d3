/** The reallocRbuild family: every builder prepends one encoding to the packet. */
module ReverseEncode {
  import opened Bytes
  import opened Ber
  import opened ReverseBuffer

  lemma Base256Step(n: nat, s: seq<Byte>, c: seq<Byte>)
    requires n >= 256
    ensures Base256(n) + s == Base256(n / 256) + ([n % 256] + s)
    ensures [n % 256] + (s + c) == ([n % 256] + s) + c
  {
    assert Base256(n) == Base256(n / 256) + [n % 256];
    hide Base256;
    Assoc(Base256(n / 256), [n % 256], s);
    Assoc([n % 256], s, c);
  }

  /** Asn01_reallocRbuildLength */
  method RbuildLength(p: Packet, r: bool, length: nat) returns (ok: bool)
    requires p.Valid()
    modifies p, p.pkt
    ensures p.Prepended(EncLength(length), r, ok)
  {
    if length <= 0x7f {
      ok := p.Put(length, r);
    } else {
      var start, n := p.offset, 0;
      ghost var low;
      ok, n, low := RbuildLowOctets(p, r, length);
      if ok {
        assert EncLength(length) == [CountOctet(|low| + 1), n] + low;
        ok := RbuildTopOctets(p, r, n, p.offset - start + 1);
        Assoc([CountOctet(|low| + 1), n], low, old(p.content));
      }
    }
  }

  /** The most significant length octet and the count octet, which need room for two. */
  method RbuildTopOctets(p: Packet, r: bool, n: Byte, count: nat) returns (ok: bool)
    requires p.Valid()
    modifies p, p.pkt
    ensures p.Prepended([CountOctet(count), n], r, ok)
  {
    ok := p.MakeRoom(2, r);
    if ok {
      p.Store(n);
      p.Store(CountOctet(count));
    }
  }

  /** All length octets but the most significant one, which is returned. */
  method RbuildLowOctets(p: Packet, r: bool, length: nat) returns (ok: bool, n: Byte, ghost low: seq<Byte>)
    requires p.Valid()
    modifies p, p.pkt
    ensures |low| == |Base256(length)| - 1
    ensures p.Prepended(low, r, ok)
    ensures ok ==> Base256(length) == [n] + low
  {
    n, low := 0, Base256(length)[1..];
    ghost var done: seq<Byte> := [];
    var left := length;
    while left > 0xff
      invariant p.Valid() && (p.pkt == old(p.pkt) || fresh(p.pkt)) && (!r ==> p.pkt == old(p.pkt))
      invariant p.content == done + old(p.content)
      invariant Base256(length) == Base256(left) + done
      invariant r || |done| <= old(p.Room())
    {
      Base256Step(left, done, old(p.content));
      ok := p.Put(left % 256, r);
      if !ok {
        return;
      }
      left, done := left / 256, [left % 256] + done;
    }
    ok, n := true, left;
    assert low == done;
  }

  /** Asn01_reallocBuildHeader, which Asn01_reallocRbuildSequence is another name for */
  method BuildHeader(p: Packet, r: bool, tag: Byte, length: nat) returns (ok: bool)
    requires p.Valid()
    modifies p, p.pkt
    ensures p.Prepended([tag] + EncLength(length), r, ok)
  {
    ok := RbuildLength(p, r, length);
    if ok {
      ok := p.Put(tag, r);
    }
  }

  /** Digits with one more octet taken from the front of what is left. */
  lemma DigitsStep(v: int, s: seq<Byte>, c: seq<Byte>)
    requires v != 0 && v != -1
    ensures Digits(v) + s == Digits(v / 256) + ([v % 256] + s)
    ensures [v % 256] + (s + c) == ([v % 256] + s) + c
  {
    assert Digits(v) == Digits(v / 256) + [v % 256];
    hide Digits;
    Assoc(Digits(v / 256), [v % 256], s);
    Assoc([v % 256], s, c);
  }

  /** One octet, then shift right and emit until only the sign is left. */
  method EmitShifted(p: Packet, r: bool, value: int) returns (ok: bool)
    requires p.Valid()
    modifies p, p.pkt
    ensures p.Prepended(ShiftedOut(value), r, ok)
  {
    var integer := value;
    var testvalue := if integer < 0 then -1 else 0;
    ok := p.Put(integer % 256, r);
    if !ok {
      return;
    }
    ghost var done: seq<Byte> := [integer % 256];
    integer := integer / 256;
    while integer != testvalue
      invariant p.Valid() && (p.pkt == old(p.pkt) || fresh(p.pkt)) && (!r ==> p.pkt == old(p.pkt))
      invariant |done| >= 1 && p.content == done + old(p.content)
      invariant ShiftedOut(value) == Digits(integer) + done
      invariant integer < 0 <==> value < 0
      invariant r || |done| <= old(p.Room())
      decreases if integer < 0 then -integer else integer
    {
      DigitsStep(integer, done, old(p.content));
      ok := p.Put(integer % 256, r);
      if !ok {
        return;
      }
      integer, done := integer / 256, [integer % 256] + done;
    }
    assert Digits(integer) == [] && done == ShiftedOut(value);
    ok := true;
  }

  /** Makes the left-most bit represent the bits that are not encoded. */
  method FixSign(p: Packet, r: bool, testvalue: int, ghost done: seq<Byte>) returns (ok: bool)
    requires p.Valid() && (testvalue == 0 || testvalue == -1)
    requires |done| >= 1 && done <= p.content
    modifies p, p.pkt
    ensures p.Prepended(SignPrefix(done, testvalue), r, ok)
  {
    assert p.content[0] == done[0];
    ok := true;
    if (p.pkt[p.pkt.Length - p.offset] >= 0x80) != (testvalue == -1) {
      ok := p.Put(if testvalue == 0 then 0 else 0xff, r);
    } else {
      assert [] + p.content == p.content;
    }
  }

  lemma SignedContent(value: int, testvalue: int, c: seq<Byte>)
    requires testvalue == if value < 0 then -1 else 0
    ensures var s := ShiftedOut(value);
            && SignPrefix(s, testvalue) + (s + c) == TwosContent(value) + c
            && |SignPrefix(s, testvalue)| + |s| == |TwosContent(value)|
  {
    ShiftLoopIsMinimal(value);
    Assoc(SignPrefix(ShiftedOut(value), testvalue), ShiftedOut(value), c);
  }

  /** Minimal two's complement content octets. */
  method RbuildTwos(p: Packet, r: bool, value: int) returns (ok: bool)
    requires p.Valid()
    modifies p, p.pkt
    ensures p.Prepended(TwosContent(value), r, ok)
  {
    var testvalue := if value < 0 then -1 else 0;
    SignedContent(value, testvalue, p.content);
    ok := EmitShifted(p, r, value);
    if ok {
      ok := FixSign(p, r, testvalue, ShiftedOut(value));
    }
  }

  /** The header in front of content octets that have just been built. */
  lemma HeaderJoins(tag: Byte, enc: seq<Byte>, c: seq<Byte>)
    ensures ([tag] + EncLength(|enc|)) + (enc + c) == Tlv(tag, enc) + c
    ensures |Tlv(tag, enc)| == 1 + |EncLength(|enc|)| + |enc|
  {
  }

  /** Asn01_reallocRbuildInt */
  method RbuildInt(p: Packet, r: bool, tag: Byte, value: Long) returns (ok: bool)
    requires p.Valid()
    modifies p, p.pkt
    ensures p.Prepended(Tlv(tag, TwosContent(Overflow32(value))), r, ok)
  {
    var start, integer := p.offset, Overflow32(value);
    HeaderJoins(tag, TwosContent(integer), p.content);
    ok := RbuildTwos(p, r, integer);
    if ok {
      ok := BuildHeader(p, r, tag, p.offset - start);
    }
  }

  /** Asn01_reallocRbuildUnsignedInt */
  method RbuildUnsignedInt(p: Packet, r: bool, tag: Byte, value: ULong) returns (ok: bool)
    requires p.Valid()
    modifies p, p.pkt
    ensures p.Prepended(Tlv(tag, TwosContent(Overflow32U(value))), r, ok)
  {
    var start, integer := p.offset, Overflow32U(value);
    HeaderJoins(tag, TwosContent(integer), p.content);
    ok := RbuildTwos(p, r, integer);
    if ok {
      ok := BuildHeader(p, r, tag, p.offset - start);
    }
  }

  /** Asn01_reallocRbuildString */
  method RbuildString(p: Packet, r: bool, tag: Byte, str: seq<Byte>) returns (ok: bool)
    requires p.Valid()
    modifies p, p.pkt
    ensures p.Prepended(Tlv(tag, str), r, ok)
  {
    HeaderJoins(tag, str, p.content);
    ok := p.PutAll(str, r);
    if ok {
      ok := BuildHeader(p, r, tag, |str|);
    }
  }

  /** Asn01_reallocRbuildBitstring: unlike the forward builder it also takes an empty one. */
  method RbuildBitstring(p: Packet, r: bool, tag: Byte, str: seq<Byte>) returns (ok: bool)
    requires p.Valid()
    modifies p, p.pkt
    ensures p.Prepended(Tlv(tag, str), r, ok)
  {
    HeaderJoins(tag, str, p.content);
    ok := p.PutAll(str, r);
    if ok {
      ok := BuildHeader(p, r, tag, |str|);
    }
  }

  /** Asn01_reallocRbuildNull */
  method RbuildNull(p: Packet, r: bool, tag: Byte) returns (ok: bool)
    requires p.Valid()
    modifies p, p.pkt
    ensures p.Prepended(Tlv(tag, []), r, ok)
  {
    HeaderJoins(tag, [], p.content);
    ok := BuildHeader(p, r, tag, 0);
  }

  lemma LeadingStep(n: nat, s: seq<Byte>, c: seq<Byte>)
    requires n > 0
    ensures Leading(n) + s == Leading(n / 128) + ([128 + n % 128] + s)
    ensures [128 + n % 128] + (s + c) == ([128 + n % 128] + s) + c
  {
    assert Leading(n) == Leading(n / 128) + [128 + n % 128];
    hide Leading;
    Assoc(Leading(n / 128), [128 + n % 128], s);
    Assoc([128 + n % 128], s, c);
  }

  /** One sub-identifier: low seven bits first, then the leading octets with bit 8 set. */
  method RbuildSubId(p: Packet, r: bool, subid: SubId) returns (ok: bool)
    requires p.Valid()
    modifies p, p.pkt
    ensures p.Prepended(EncSubId(subid), r, ok)
  {
    ok := p.Put(subid % 128, r);
    if !ok {
      return;
    }
    ghost var done: seq<Byte> := [subid % 128];
    var tmpint: nat := subid / 128;
    while tmpint > 0
      invariant p.Valid() && (p.pkt == old(p.pkt) || fresh(p.pkt)) && (!r ==> p.pkt == old(p.pkt))
      invariant p.content == done + old(p.content)
      invariant EncSubId(subid) == Leading(tmpint) + done
      invariant r || |done| <= old(p.Room())
    {
      LeadingStep(tmpint, done, old(p.content));
      ok := p.Put(128 + tmpint % 128, r);
      if !ok {
        return;
      }
      tmpint, done := tmpint / 128, [128 + tmpint % 128] + done;
    }
    assert done == EncSubId(subid);
    ok := true;
  }

  lemma SubIdsStep(o: ObjectId, i: nat, c: seq<Byte>)
    requires i < |o|
    ensures EncSubId(o[i]) + (EncSubIds(o[i + 1..]) + c) == EncSubIds(o[i..]) + c
    ensures |EncSubIds(o[i..])| == |EncSubId(o[i])| + |EncSubIds(o[i + 1..])|
  {
    assert o[i..][1..] == o[i + 1..];
    Assoc(EncSubId(o[i]), EncSubIds(o[i + 1..]), c);
  }

  lemma {:induction false} SubIdsSuffix(o: ObjectId, i: nat)
    requires i <= |o|
    ensures |EncSubIds(o[i..])| <= |EncSubIds(o)|
  {
    if i > 0 {
      SubIdsSuffix(o, i - 1);
      SubIdsStep(o, i - 1, []);
    } else {
      assert o[0..] == o;
    }
  }

  /** All sub-identifiers from the third on, the last one first. */
  method RbuildTail(p: Packet, r: bool, objid: ObjectId) returns (ok: bool)
    requires p.Valid() && |objid| >= 2
    modifies p, p.pkt
    ensures p.Prepended(EncSubIds(objid[2..]), r, ok)
  {
    var i := |objid|;
    ok := true;
    assert objid[i..] == [] && EncSubIds([]) + p.content == p.content;
    while i > 2
      invariant 2 <= i <= |objid| && ok
      invariant p.Valid() && (p.pkt == old(p.pkt) || fresh(p.pkt)) && (!r ==> p.pkt == old(p.pkt))
      invariant p.content == EncSubIds(objid[i..]) + old(p.content)
      invariant r || |EncSubIds(objid[i..])| <= old(p.Room())
    {
      SubIdsStep(objid, i - 1, old(p.content));
      TailSuffix(objid, i - 1);
      ok := RbuildSubId(p, r, objid[i - 1]);
      if !ok {
        return;
      }
      i := i - 1;
    }
  }

  lemma TailSuffix(o: ObjectId, i: nat)
    requires 2 <= i <= |o|
    ensures |EncSubIds(o[i..])| <= |EncSubIds(o[2..])|
  {
    SubIdsSuffix(o[2..], i - 2);
    assert o[2..][i - 2..] == o[i..];
  }

  /** The three shapes of content: no sub-identifier, one, or the first two combined. */
  method RbuildOidContent(p: Packet, r: bool, objid: ObjectId) returns (ok: bool)
    requires p.Valid()
    modifies p, p.pkt
    ensures !Buildable(objid) ==> !ok
    ensures Buildable(objid) ==> p.Prepended(OidContent(objid), r, ok)
  {
    if |objid| == 0 {
      ok := p.MakeRoom(2, r);
      if ok {
        p.Store(0);
        p.Store(0);
      }
    } else if objid[0] > 2 {
      ok := false;
    } else if |objid| == 1 {
      ok := p.Put(objid[0], r);
    } else {
      SubIdsStep(Combined(objid), 0, p.content);
      assert Combined(objid)[0..] == Combined(objid) && Combined(objid)[1..] == objid[2..];
      ok := RbuildTail(p, r, objid);
      if ok {
        if objid[1] > 40 && objid[0] < 2 {
          ok := false;
        } else {
          ok := RbuildSubId(p, r, FirstTwo(objid));
        }
      }
    }
  }

  /** Asn01_reallocRbuildObjid */
  method RbuildObjid(p: Packet, r: bool, tag: Byte, objid: ObjectId) returns (ok: bool)
    requires p.Valid()
    modifies p, p.pkt
    ensures !Buildable(objid) ==> !ok
    ensures Buildable(objid) ==> p.Prepended(Tlv(tag, OidContent(objid)), r, ok)
  {
    var start := p.offset;
    if Buildable(objid) {
      HeaderJoins(tag, OidContent(objid), p.content);
    }
    ok := RbuildOidContent(p, r, objid);
    if ok {
      ok := BuildHeader(p, r, tag, p.offset - start);
    }
  }
}
