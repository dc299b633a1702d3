/** The item parsers of Asn01.c with their loops and registers, each computing what ParseSpec
    says. `d` is the memory from the data pointer on; an octet behind its end makes the parser
    give up, where the C code would read past the buffer. */
module Parsers {
  import opened Bytes
  import opened Ber
  import opened Tags
  import opened ReverseInt64
  import opened ForwardInt64
  import opened ParseSpec

  /** The loop of Asn01_parseLength over the octets behind the count. */
  method ReadLengthOctets(d: seq<Byte>, count: nat) returns (length: Option<ULong>)
    requires 1 <= count <= 8 && d != []
    ensures length == if |d| < 1 + count then None else Some(UVal(d[1..1 + count]))
  {
    hide UVal;
    var data: nat, value: ULong := 1, 0;
    NoOctets(d[1..1]);
    while data <= count
      invariant 1 <= data <= count + 1 && data <= |d|
      invariant value == UVal(d[1..data])
    {
      if data >= |d| {
        return None;
      }
      OctetShiftedIn(d, data);
      value, data := (value * 256 % TWO_64) + d[data], data + 1;
    }
    length := Some(value);
  }

  /** Asn01_parseLength: `length` is what it leaves in `*length`. */
  method ReadLength(d: seq<Byte>, before: ULong) returns (r: Option<Item<nat>>, length: ULong)
    ensures r == ParseLength(d)
    ensures d != [] && (128 < d[0] <= 128 + 8 ==> |d| >= 1 + (d[0] - 128)) ==> length == LengthLeft(d, before)
  {
    if |d| == 0 {
      return None, before;
    }
    var lengthbyte := d[0];
    if lengthbyte < 0x80 {
      return Some(Item(lengthbyte, 1)), lengthbyte;
    }
    var count: nat := lengthbyte - 0x80;
    if count == 0 || count > 8 {
      return None, before;
    }
    var value := ReadLengthOctets(d, count);
    if value.None? {
      return None, before;
    }
    if value.value >= TWO_63 {
      return None, value.value;
    }
    return Some(Item(value.value, 1 + count)), value.value;
  }

  lemma NoOctets(s: seq<Byte>)
    requires s == []
    ensures UVal(s) == 0
  {
  }

  lemma OctetShiftedIn(d: seq<Byte>, k: nat)
    requires 1 <= k <= 8 && k < |d|
    ensures UVal(d[1..k + 1]) == (UVal(d[1..k]) * 256 % TWO_64) + d[k] < TWO_64
  {
    hide UVal;
    assert d[1..k + 1] == d[1..k] + [d[k]];
    UValAppend(d[1..k], d[k]);
    NoOverflow(d[1..k]);
    NothingLost(UVal(d[1..k]), d[k]);
  }

  lemma NothingLost(v: nat, b: Byte)
    requires v * 256 < TWO_64
    ensures v * 256 % TWO_64 == v * 256 && v * 256 + b < TWO_64
  {
  }

  /** Shifting fewer than eight octets left by eight loses nothing. */
  lemma NoOverflow(s: seq<Byte>)
    requires |s| < 8
    ensures UVal(s) * 256 < TWO_64
  {
    hide UVal;
    UValBound(s);
    Pow256Monotone(|s|, 7);
    Pow256Values();
  }

  /** Identifier, length, and the length check every item parser begins with. */
  method ReadHead(d: seq<Byte>, len: nat) returns (r: Option<Head>)
    ensures r == ParseHead(d, len)
  {
    hide ParseLength;
    if |d| == 0 {
      return None;
    }
    var l, _ := ReadLength(d[1..], 0);
    if l.None? || !LengthFits(l.value.value, 1 + l.value.used, len) {
      return None;
    }
    r := Some(Head(d[0], l.value.value, 1 + l.value.used));
  }

  /** The number after i turns of an accumulation loop: at first only the sign. */
  function Running(c: seq<Byte>, i: nat): int
    requires c != [] && i <= |c|
  {
    if i > 0 then SignedVal(c[..i]) else if c[0] >= 0x80 then -1 else 0
  }

  lemma RunningNext(c: seq<Byte>, i: nat)
    requires i < |c|
    ensures Running(c, i + 1) == Running(c, i) * 256 + c[i]
  {
    if i > 0 {
      assert c[..i + 1] == c[..i] + [c[i]];
      SignedValAppend(c[..i], c[i]);
    }
  }

  lemma RunningEnds(c: seq<Byte>)
    requires c != []
    ensures Running(c, |c|) == SignedVal(c)
  {
    assert c[..|c|] == c;
  }

  /** The signed accumulation loop: `value = ( value << 8 ) | *bufp++` from -1 or 0. */
  method Accumulate(c: seq<Byte>) returns (value: int)
    requires 1 <= |c| <= 9
    ensures value == SignedVal(c)
  {
    hide SignedVal;
    value := if c[0] >= 0x80 then -1 else 0;
    var i := 0;
    while i < |c|
      invariant 0 <= i <= |c| && value == Running(c, i)
    {
      RunningNext(c, i);
      value, i := value * 256 + c[i], i + 1;
    }
    RunningEnds(c);
  }

  /** Asn_parseInt: at most eight octets, so the `long` holds the value. */
  method ReadInt(d: seq<Byte>, len: nat) returns (r: Option<Parsed<int>>)
    ensures r == ParseInt(d, len)
  {
    hide ParseHead, SignedVal;
    var h := ReadHead(d, len);
    if h.None? || h.value.tag != INTEGER || h.value.n > 8 || h.value.n == 0 {
      return None;
    }
    var at, n := h.value.header, h.value.n;
    if at + n > |d| {
      return None;
    }
    var value := Accumulate(d[at..at + n]);
    r := Some(Parsed(Overflow32(value), at + n, len - (n + at)));
  }

  /** The same loop in a u_long, where -1 is all ones. */
  method AccumulateUnsigned(c: seq<Byte>) returns (value: ULong)
    requires 1 <= |c| <= 9
    ensures value == SignedVal(c) % TWO_64
  {
    hide SignedVal, Running;
    value := if c[0] >= 0x80 then TWO_64 - 1 else 0;
    var i := 0;
    RunningSign(c);
    while i < |c|
      invariant 0 <= i <= |c| && value == Running(c, i) % TWO_64
    {
      RunningNext(c, i);
      ShiftModulo(Running(c, i), c[i]);
      value, i := value * 256 % TWO_64 + c[i], i + 1;
    }
    RunningEnds(c);
  }

  lemma RunningSign(c: seq<Byte>)
    requires c != []
    ensures Running(c, 0) % TWO_64 == if c[0] >= 0x80 then TWO_64 - 1 else 0
  {
  }

  lemma ShiftModulo(v: int, b: Byte)
    ensures v % TWO_64 * 256 % TWO_64 + b == (v * 256 + b) % TWO_64
  {
    var q, j, k := v / TWO_64, v / 0x100_0000_0000_0000, v % 0x100_0000_0000_0000;
    RemainderIs(v % TWO_64 * 256, j - q * 256, k * 256);
    RemainderIs(v * 256 + b, j, k * 256 + b);
  }

  lemma RemainderIs(x: int, q: int, r: nat)
    requires x == q * TWO_64 + r && r < TWO_64
    ensures x % TWO_64 == r
  {
  }

  lemma ModPlusMultiple(x: int, k: int)
    ensures (x + k * TWO_64) % TWO_64 == x % TWO_64
  {
    RemainderIs(x + k * TWO_64, x / TWO_64 + k, x % TWO_64);
  }

  lemma ModTwice(v: int)
    ensures v % TWO_64 % TWO_32 == v % TWO_32
  {
    var q, m := v / TWO_64, v % TWO_64;
    assert v == m + q * TWO_32 * TWO_32;
    ModTwoTo32(m, q * TWO_32);
  }

  lemma ModTwoTo32(x: int, k: int)
    ensures (x + k * TWO_32) % TWO_32 == x % TWO_32
  {
  }

  /** Asn01_parseUnsignedInt */
  method ReadUnsignedInt(d: seq<Byte>, len: nat) returns (r: Option<Parsed<(Byte, SubId)>>)
    ensures r == ParseUnsignedInt(d, len)
  {
    hide ParseHead, SignedVal;
    var h := ReadHead(d, len);
    if h.None? || !IsUnsignedTag(h.value.tag) || h.value.n > 9 || h.value.n == 0 {
      return None;
    }
    var at, n := h.value.header, h.value.n;
    if at + n > |d| || (n == 9 && d[at] != 0) {
      return None;
    }
    var value := AccumulateUnsigned(d[at..at + n]);
    ModTwice(SignedVal(d[at..at + n]));
    r := Some(Parsed((h.value.tag, Overflow32U(value)), at + n, len - (n + at)));
  }

  /** Asn01_parseString */
  method ReadString(d: seq<Byte>, len: nat, capacity: nat) returns (r: Option<Parsed<(Byte, seq<Byte>)>>)
    ensures r == ParseString(d, len, capacity)
  {
    hide ParseHead;
    var h := ReadHead(d, len);
    if h.None? || !IsStringTag(h.value.tag) || h.value.n > capacity {
      return None;
    }
    var at, n := h.value.header, h.value.n;
    if at + n > |d| {
      return None;
    }
    r := Some(Parsed((h.value.tag, d[at..at + n]), at + n, len - (n + at)));
  }

  // ----- 64-bit values in two registers -------------------------------------------------

  /** The shift of both registers that takes in one octet. */
  lemma PairTakesIn(high: SubId, low: SubId, v: int, b: Byte)
    requires high * TWO_32 + low == v % TWO_64
    ensures ShiftHigh(high, low) * TWO_32 + (ShiftLow(low) + b) == (v * 256 + b) % TWO_64
    ensures ShiftLow(low) + b < TWO_32
  {
    hide ShiftHigh;
    PairShiftValue(high, low);
    ShiftModulo(v, b);
  }

  /** The register loop of Asn01_parseUnsignedInt64. */
  method AccumulatePair(c: seq<Byte>) returns (high: SubId, low: SubId)
    requires |c| <= 9
    ensures Counter64(high, low) == Halves(UVal(c))
  {
    hide ShiftHigh, ShiftLow;
    high, low := 0, 0;
    var i := 0;
    while i < |c|
      invariant 0 <= i <= |c| && high * TWO_32 + low == UVal(c[..i]) % TWO_64
    {
      assert c[..i + 1] == c[..i] + [c[i]];
      UValAppend(c[..i], c[i]);
      PairTakesIn(high, low, UVal(c[..i]), c[i]);
      high, low, i := ShiftHigh(high, low), ShiftLow(low) + c[i], i + 1;
    }
    assert c[..i] == c;
  }

  /** The register loop of Asn01_parseSignedInt64, from registers preset with the sign. */
  method AccumulateSignedPair(c: seq<Byte>) returns (high: SubId, low: SubId)
    requires 1 <= |c| <= 9
    ensures Counter64(high, low) == Halves(SignedVal(c))
  {
    hide Halves;
    var preset := if c[0] >= 0x80 then SIGN_REGISTERS else Counter64(0, 0);
    high, low := ShiftHigh(preset.high, preset.low), ShiftLow(preset.low) + c[0];
    FirstOctet(c[0]);
    assert c[..1] == [c[0]];
    var i := 1;
    while i < |c|
      invariant 1 <= i <= |c| && high * TWO_32 + low == SignedVal(c[..i]) % TWO_64
    {
      assert c[..i + 1] == c[..i] + [c[i]];
      SignedValAppend(c[..i], c[i]);
      PairTakesIn(high, low, SignedVal(c[..i]), c[i]);
      high, low, i := ShiftHigh(high, low), ShiftLow(low) + c[i], i + 1;
    }
    assert c[..i] == c;
    PairIsHalves(high, low, SignedVal(c));
  }

  lemma FirstOctet(b: Byte)
    ensures var preset := if b >= 0x80 then SIGN_REGISTERS else Counter64(0, 0);
            && ShiftLow(preset.low) + b < TWO_32
            && ShiftHigh(preset.high, preset.low) * TWO_32 + (ShiftLow(preset.low) + b) == SignedVal([b]) % TWO_64
  {
  }

  lemma PairIsHalves(high: SubId, low: SubId, v: int)
    requires high * TWO_32 + low == v % TWO_64
    ensures Counter64(high, low) == Halves(v)
  {
  }

  /** Whether OPAQUE_TAG1 and a given identifier stand at `at`; None past the memory. */
  method LookAhead(d: seq<Byte>, at: nat, tags: set<Byte>) returns (r: Option<bool>)
    ensures r == Announces(d, at, tags)
  {
    if at >= |d| {
      return None;
    }
    if d[at] != OPAQUE_TAG1 {
      return Some(false);
    }
    if at + 1 >= |d| {
      return None;
    }
    r := Some(d[at + 1] in tags);
  }

  /** Length and length check of the value inside an Opaque. */
  method ReadInner(d: seq<Byte>, outer: Head, len: nat) returns (r: Option<Head>)
    ensures r == ParseInner(d, outer, len)
  {
    hide ParseLength;
    var at := outer.header + 2;
    if |d| < at {
      return None;
    }
    var l, _ := ReadLength(d[at..], 0);
    if l.None? || !LengthFits(l.value.value, at + l.value.used, len) {
      return None;
    }
    r := Some(Head(d[at - 1], l.value.value, at + l.value.used));
  }

  /** Asn01_parseUnsignedInt64 */
  method ReadUnsignedInt64(d: seq<Byte>, len: nat) returns (r: Option<Parsed<(Byte, Counter64)>>)
    ensures r == ParseUnsignedInt64(d, len)
  {
    hide ParseHead, ParseInner, Announces, Halves, UVal;
    var outer := ReadHead(d, len);
    if outer.None? || (outer.value.tag != COUNTER64 && outer.value.tag != OPAQUE) {
      return None;
    }
    var h := outer;
    if outer.value.tag == OPAQUE && outer.value.n <= OPAQUE_COUNTER64_MX_BER_LEN {
      var special := LookAhead(d, outer.value.header, {OPAQUE_COUNTER64, OPAQUE_U64});
      if special.None? {
        return None;
      }
      if special.value {
        h := ReadInner(d, outer.value, len);
        if h.None? {
          return None;
        }
      }
    }
    var at, n := h.value.header, h.value.n;
    if n > 9 || at + n > |d| || (n == 9 && d[at] != 0) {
      return None;
    }
    var high, low := AccumulatePair(d[at..at + n]);
    r := Some(Parsed((h.value.tag, Counter64(high, low)), at + n, len - (n + at)));
  }

  /** Asn01_parseSignedInt64 */
  method ReadSignedInt64(d: seq<Byte>, len: nat) returns (r: Option<Parsed<(Byte, Counter64)>>)
    ensures r == ParseSignedInt64(d, len)
  {
    hide ParseHead, ParseInner, Announces, SignedVal;
    var outer := ReadHead(d, len);
    if outer.None? || outer.value.tag != OPAQUE || outer.value.n > OPAQUE_COUNTER64_MX_BER_LEN {
      return None;
    }
    var special := LookAhead(d, outer.value.header, {OPAQUE_I64});
    if special.None? || !special.value {
      return None;
    }
    var h := ReadInner(d, outer.value, len);
    if h.None? || h.value.n > 9 || h.value.header >= |d| || h.value.header + h.value.n > |d| {
      return None;
    }
    var at, n := h.value.header, h.value.n;
    if n == 9 && d[at] != 0 {
      return None;
    }
    if n == 0 {
      return Some(Parsed((h.value.tag, if d[at] >= 0x80 then SIGN_REGISTERS else Counter64(0, 0)), at, len - (n + at)));
    }
    var high, low := AccumulateSignedPair(d[at..at + n]);
    r := Some(Parsed((h.value.tag, Counter64(high, low)), at + n, len - (n + at)));
  }

  // ----- bit strings, floats and doubles ------------------------------------------------

  /** Asn01_parseBitstring */
  method ReadBitstring(d: seq<Byte>, len: nat, capacity: nat) returns (r: Option<Parsed<seq<Byte>>>)
    ensures r == ParseBitstring(d, len, capacity)
  {
    hide ParseHead;
    var h := ReadHead(d, len);
    if h.None? || h.value.tag != BIT_STR || h.value.n > capacity || h.value.n < 1 {
      return None;
    }
    var at, n := h.value.header, h.value.n;
    if at + n > |d| {
      return None;
    }
    r := Some(Parsed(d[at..at + n], at + n, len - (n + at)));
  }

  /** The part that Asn01_parseFloat and Asn01_parseDouble have in common. */
  method ReadReal(d: seq<Byte>, len: nat, tag: Byte, size: nat) returns (r: Option<Parsed<seq<Byte>>>)
    ensures r == ParseReal(d, len, tag, size)
  {
    hide ParseHead, ParseInner, Announces;
    var outer := ReadHead(d, len);
    if outer.None? {
      return None;
    }
    var h := outer;
    if outer.value.tag == OPAQUE && outer.value.n == size + 3 {
      var special := LookAhead(d, outer.value.header, {tag});
      if special.None? {
        return None;
      }
      if special.value {
        h := ReadInner(d, outer.value, len);
        if h.None? {
          return None;
        }
      }
    }
    var at, n := h.value.header, h.value.n;
    if h.value.tag != tag || n != size || at + n > |d| {
      return None;
    }
    r := Some(Parsed(d[at..at + n], at, len - (n + at)));
  }

  /** Asn01_parseFloat */
  method ReadFloat(d: seq<Byte>, len: nat) returns (r: Option<Parsed<SubId>>)
    ensures r == ParseFloat(d, len)
  {
    hide ParseReal;
    var c := ReadReal(d, len, OPAQUE_FLOAT, 4);
    if c.None? {
      return None;
    }
    r := Some(Parsed(HostOrder(c.value.value), c.value.used, c.value.left));
  }

  /** Asn01_parseDouble: the words are swapped after their conversion. */
  method ReadDouble(d: seq<Byte>, len: nat) returns (r: Option<Parsed<Counter64>>)
    ensures r == ParseDouble(d, len)
  {
    hide ParseReal, HostOrder;
    var c := ReadReal(d, len, OPAQUE_DOUBLE, 8);
    if c.None? {
      return None;
    }
    var tmp := HostOrder(c.value.value[..4]);
    var low := HostOrder(c.value.value[4..]);
    r := Some(Parsed(Counter64(tmp, low), c.value.used, c.value.left));
  }

  // ----- object identifiers -------------------------------------------------------------

  /** The inner loop of Asn01_parseObjid: one sub-identifier, shifted into a u_long. */
  method ReadSubId(c: seq<Byte>) returns (subidentifier: ULong, used: nat)
    requires c != []
    ensures 1 <= used <= |c|
    ensures used == if FirstGroup(c) == 0 then |c| else FirstGroup(c)
    ensures FirstGroup(c) == 0 <==> c[used - 1] >= 0x80
    ensures subidentifier == Val128(c[..used]) % TWO_64
  {
    hide FirstGroup, Val128;
    subidentifier, used := c[0] % 128, 1;
    OneOctet(c);
    while c[used - 1] >= 0x80 && used < |c|
      invariant 1 <= used <= |c|
      invariant forall i :: 0 <= i < used - 1 ==> c[i] >= 0x80
      invariant subidentifier == Val128(c[..used]) % TWO_64
      decreases |c| - used
    {
      assert c[..used + 1] == c[..used] + [c[used]];
      Val128Append(c[..used], c[used]);
      Shift7Modulo(Val128(c[..used]), c[used] % 128);
      subidentifier, used := (subidentifier * 128 + c[used] % 128) % TWO_64, used + 1;
    }
    GroupEnds(c, used);
  }

  lemma OneOctet(c: seq<Byte>)
    requires c != []
    ensures Val128(c[..1]) == c[0] % 128
  {
    hide Val128;
    LeadingZero();
    Val128Append([], c[0]);
    assert [] + [c[0]] == c[..1];
  }

  /** Where the loop stops is where the first group ends. */
  lemma GroupEnds(c: seq<Byte>, used: nat)
    requires 1 <= used <= |c| && forall i :: 0 <= i < used - 1 ==> c[i] >= 0x80
    requires c[used - 1] < 0x80 || used == |c|
    ensures used == if FirstGroup(c) == 0 then |c| else FirstGroup(c)
    ensures FirstGroup(c) == 0 <==> c[used - 1] >= 0x80
  {
    GroupBehind(c, used - 1);
    var t := c[used - 1..];
    assert t[0] == c[used - 1];
    if t[0] >= 0x80 {
      assert t[1..] == [];
    }
  }

  lemma Shift7Modulo(v: nat, b: nat)
    ensures (v % TWO_64 * 128 + b) % TWO_64 == (v * 128 + b) % TWO_64
  {
    var q, m := v / TWO_64, v % TWO_64;
    assert v * 128 + b == (m * 128 + b) + (q * 128) * TWO_64;
    ModPlusMultiple(m * 128 + b, q * 128);
  }

  /** Leading octets do not end a group. */
  lemma {:induction false} GroupBehind(c: seq<Byte>, k: nat)
    requires k < |c| && forall i :: 0 <= i < k ==> c[i] >= 0x80
    ensures FirstGroup(c) == if FirstGroup(c[k..]) == 0 then 0 else FirstGroup(c[k..]) + k
    decreases k
  {
    if k > 0 {
      GroupBehind(c[1..], k - 1);
      assert c[1..][k - 1..] == c[k..];
    } else {
      assert c[0..] == c;
    }
  }

  /** One turn of the outer loop, as a step of DecodeSubIds. */
  lemma DecodeStep(c: seq<Byte>, slots: nat, used: nat, v: ULong)
    requires c != [] && slots > 0
    requires 1 <= used <= |c| && used == (if FirstGroup(c) == 0 then |c| else FirstGroup(c))
    requires v == Val128(c[..used]) % TWO_64
    ensures FirstGroup(c) == 0 || v >= TWO_32 ==> DecodeSubIds(c, slots).None?
    ensures FirstGroup(c) != 0 && v < TWO_32 ==>
              DecodeSubIds(c, slots) == match DecodeSubIds(c[used..], slots - 1)
                case None => None
                case Some(r) => Some([v] + r)
  {
    hide FirstGroup, Val128;
  }

  /** The outer loop: sub-identifiers go to objid[1], objid[2], ... while there is room. */
  method ReadSubIds(c: seq<Byte>, objid: array<SubId>) returns (count: Option<nat>)
    requires objid.Length >= 1
    modifies objid
    ensures match DecodeSubIds(c, objid.Length - 1)
            case None => count.None?
            case Some(subs) => count == Some(|subs|) && |subs| < objid.Length && objid[1..1 + |subs|] == subs
  {
    hide FirstGroup, Val128, DecodeSubIds;
    var k, n := 0, 0;
    assert c[0..] == c;
    ghost var subs: ObjectId := [];
    ghost var want := DecodeSubIds(c, objid.Length - 1);
    PrefixNone(want);
    while k < |c| && n < objid.Length - 1
      invariant 0 <= k <= |c| && n == |subs| <= objid.Length - 1
      invariant objid[1..1 + n] == subs
      invariant want == Prefixed(subs, DecodeSubIds(c[k..], objid.Length - 1 - n))
      decreases |c| - k
    {
      var v, used := ReadSubId(c[k..]);
      DecodeStep(c[k..], objid.Length - 1 - n, used, v);
      if c[k + used - 1] >= 0x80 || v >= TWO_32 {
        assert c[k..][used - 1] == c[k + used - 1];
        return None;
      }
      assert c[k..][used..] == c[k + used..];
      PrefixedTwice(subs, v, DecodeSubIds(c[k + used..], objid.Length - 2 - n));
      objid[1 + n] := v;
      subs := subs + [v];
      k, n := k + used, n + 1;
    }
    DecodeEnds(c[k..], objid.Length - 1 - n);
    if k < |c| {
      return None;
    }
    assert subs + [] == subs;
    count := Some(n);
  }

  function Prefixed(s: ObjectId, r: Option<ObjectId>): Option<ObjectId> {
    match r
    case None => None
    case Some(t) => Some(s + t)
  }

  lemma PrefixNone(r: Option<ObjectId>)
    ensures Prefixed([], r) == r
  {
    assert r.Some? ==> [] + r.value == r.value;
  }

  lemma PrefixedTwice(s: ObjectId, v: SubId, r: Option<ObjectId>)
    ensures Prefixed(s, match r case None => None case Some(t) => Some([v] + t)) == Prefixed(s + [v], r)
  {
    if r.Some? {
      Assoc(s, [v], r.value);
    }
  }

  lemma DecodeEnds(c: seq<Byte>, slots: nat)
    ensures c == [] ==> DecodeSubIds(c, slots) == Some([])
    ensures c != [] && slots == 0 ==> DecodeSubIds(c, slots).None?
  {
  }

  /** Asn01_parseObjid into the array `objid`; the result is the number of sub-identifiers. */
  method ReadObjid(d: seq<Byte>, len: nat, objid: array<SubId>) returns (r: Option<Parsed<nat>>)
    requires objid.Length >= 2
    modifies objid
    ensures match ParseObjid(d, len, objid.Length)
            case None => r.None?
            case Some(i) =>
              && r == Some(Parsed(|i.value|, i.used, i.left))
              && |i.value| <= objid.Length && objid[..|i.value|] == i.value
  {
    hide ParseHead, DecodeSubIds;
    var h := ReadHead(d, len);
    if h.None? || h.value.tag != OBJECT_ID || h.value.header + h.value.n > |d| {
      return None;
    }
    var at, n := h.value.header, h.value.n;
    ghost var c := d[at..at + n];
    if n == 0 {
      objid[0], objid[1] := 0, 0;
      assert objid[..1] == [0];
      return Some(Parsed(1, at, len - (n + at)));
    }
    var count := ReadSubIds(d[at..at + n], objid);
    if count.None? {
      return None;
    }
    ghost var subs := objid[1..1 + count.value];
    assert DecodeSubIds(c, objid.Length - 1) == Some(subs);
    var first := objid[1];
    if first < 40 {
      objid[0], objid[1] := 0, first;
    } else if first < 80 {
      objid[0], objid[1] := 1, first - 40;
    } else {
      objid[0], objid[1] := 2, first - 80;
    }
    assert objid[..1 + count.value] == SplitFirst(subs[0]) + subs[1..];
    r := Some(Parsed(1 + count.value, at + n, len - (n + at)));
  }

  // ----- headers ------------------------------------------------------------------------

  /** Asn01_parseHeader */
  method ReadHeader(d: seq<Byte>, len: nat) returns (r: Option<Head>)
    ensures r == ParseHeader(d, len)
  {
    hide ParseHead, ParseInner, Announces;
    if |d| == 0 || d[0] % 32 == 31 {
      return None;
    }
    r := ReadHead(d, len);
    if r.Some? && r.value.tag == OPAQUE {
      var special := LookAhead(d, r.value.header, SPECIAL_TAGS);
      if special.None? {
        return None;
      }
      if special.value {
        r := ReadInner(d, r.value, len);
      }
    }
  }

  /** Asn01_parseSequence */
  method ReadSequence(d: seq<Byte>, len: nat, expected: Byte) returns (r: Option<Head>)
    ensures r == ParseSequence(d, len, expected)
  {
    hide ParseHeader;
    r := ReadHeader(d, len);
    if r.Some? && r.value.tag != expected {
      r := None;
    }
  }
}
