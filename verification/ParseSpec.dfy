/** What the item parsers of Asn01.c compute, as functions. `d` is the memory from the data
    pointer on, `len` is `*datalength`; a read past the memory counts as failure. The result
    carries the value, how far the pointer advanced and, for the length-checked parsers, the new
    `*datalength`. */
module ParseSpec {
  import opened Bytes
  import opened Ber
  import opened Tags
  import opened ReverseInt64

  datatype Item<+T> = Item(value: T, used: nat)

  /** What a length-checked parser leaves behind: `left` is the new `*datalength`. */
  datatype Parsed<+T> = Parsed(value: T, used: nat, left: nat)

  const MAX_LENGTH := 0x7fff_ffff

  /** Asn01_parseLength */
  function ParseLength(d: seq<Byte>): (r: Option<Item<nat>>)
    ensures r.Some? ==> 1 <= r.value.used <= |d| && r.value.value < TWO_63
  {
    if d == [] then None
    else if d[0] < 128 then Some(Item(d[0], 1))
    else
      var count := d[0] - 128;
      if count == 0 || count > 8 || |d| < 1 + count || UVal(d[1..1 + count]) >= TWO_63 then None
      else Some(Item(UVal(d[1..1 + count]), 1 + count))
  }

  /** What Asn01_parseLength leaves in `*length` when every octet can be read: it does not set it
      when the number of length octets is 0 or more than eight, but does for a length it refuses. */
  function LengthLeft(d: seq<Byte>, before: ULong): (n: nat)
    requires d != [] && (128 < d[0] <= 128 + 8 ==> |d| >= 1 + (d[0] - 128))
    ensures ParseLength(d).Some? ==> n == ParseLength(d).value.value
  {
    if d[0] < 128 then d[0]
    else if d[0] == 128 || d[0] > 128 + 8 then before
    else UVal(d[1..1 + (d[0] - 128)])
  }

  /** _Asn01_parseLengthCheck */
  predicate LengthFits(n: nat, header: nat, len: nat) {
    n <= MAX_LENGTH && header <= MAX_LENGTH && n + header <= len
  }

  /** Identifier, length and number of header octets, after the length check. */
  datatype Head = Head(tag: Byte, n: nat, header: nat)

  function ParseHead(d: seq<Byte>, len: nat): (r: Option<Head>)
    ensures r.Some? ==> 2 <= r.value.header <= |d| && r.value.header + r.value.n <= len && r.value.n <= MAX_LENGTH
  {
    if d == [] then None
    else
      var l :- ParseLength(d[1..]);
      if LengthFits(l.value, 1 + l.used, len) then Some(Head(d[0], l.value, 1 + l.used)) else None
  }

  /** The content octets, when they can be read. */
  function ContentOf(d: seq<Byte>, h: Head): (c: Option<seq<Byte>>)
    ensures c.Some? ==> |c.value| == h.n && h.header + h.n <= |d|
  {
    if h.header + h.n <= |d| then Some(d[h.header..h.header + h.n]) else None
  }

  /** `*datalength -= ( int )asn_length + ( bufp - data )` */
  function Lowered(len: nat, h: Head): nat
    requires h.header + h.n <= len
  {
    len - (h.n + h.header)
  }

  /** Asn_parseInt */
  function ParseInt(d: seq<Byte>, len: nat): (r: Option<Parsed<int>>)
    ensures r.Some? ==> 0 < r.value.used <= |d| && r.value.left == len - r.value.used
    ensures r.Some? ==> -TWO_32 < r.value.value < TWO_32
  {
    var h :- ParseHead(d, len);
    if h.tag != INTEGER || h.n > 8 || h.n == 0 then None
    else
      var c :- ContentOf(d, h);
      Some(Parsed(Overflow32(SignedVal(c)), h.header + h.n, Lowered(len, h)))
  }

  predicate IsUnsignedTag(tag: Byte) {
    tag == COUNTER || tag == GAUGE || tag == TIMETICKS || tag == UINTEGER
  }

  /** Asn01_parseUnsignedInt */
  function ParseUnsignedInt(d: seq<Byte>, len: nat): (r: Option<Parsed<(Byte, SubId)>>)
    ensures r.Some? ==> 0 < r.value.used <= |d| && r.value.left == len - r.value.used
  {
    var h :- ParseHead(d, len);
    if !IsUnsignedTag(h.tag) || h.n > 9 || h.n == 0 then None
    else
      var c :- ContentOf(d, h);
      if h.n == 9 && c[0] != 0 then None
      else Some(Parsed((h.tag, SignedVal(c) % TWO_32), h.header + h.n, Lowered(len, h)))
  }

  predicate IsStringTag(tag: Byte) {
    tag == OCTET_STR || tag == IPADDRESS || tag == OPAQUE || tag == NSAP
  }

  /** Asn01_parseString into a buffer of `capacity` octets */
  function ParseString(d: seq<Byte>, len: nat, capacity: nat): (r: Option<Parsed<(Byte, seq<Byte>)>>)
    ensures r.Some? ==> 0 < r.value.used <= |d| && r.value.left == len - r.value.used && |r.value.value.1| <= capacity
  {
    var h :- ParseHead(d, len);
    if !IsStringTag(h.tag) || h.n > capacity then None
    else
      var c :- ContentOf(d, h);
      Some(Parsed((h.tag, c), h.header + h.n, Lowered(len, h)))
  }

  // ----- 64-bit values ------------------------------------------------------------------

  function Halves(v: int): Counter64 {
    var u := v % TWO_64;
    Counter64(u / TWO_32, u % TWO_32)
  }

  /** The header of a special value inside an Opaque: its length and where its content starts. */
  function ParseInner(d: seq<Byte>, outer: Head, len: nat): (r: Option<Head>)
    ensures r.Some? ==> outer.header + 2 < r.value.header <= |d| && r.value.header + r.value.n <= len
                        && r.value.n <= MAX_LENGTH
  {
    var at := outer.header + 2;
    if |d| < at then None
    else
      var l :- ParseLength(d[at..]);
      if LengthFits(l.value, at + l.used, len) then Some(Head(d[at - 1], l.value, at + l.used)) else None
  }

  /** Whether the octets behind the header are OPAQUE_TAG1 and then one of `tags`; None when
      one that is looked at cannot be read. */
  function Announces(d: seq<Byte>, at: nat, tags: set<Byte>): Option<bool> {
    if at >= |d| then None
    else if d[at] != OPAQUE_TAG1 then Some(false)
    else if at + 1 >= |d| then None
    else Some(d[at + 1] in tags)
  }

  /** Asn01_parseUnsignedInt64 */
  function ParseUnsignedInt64(d: seq<Byte>, len: nat): (r: Option<Parsed<(Byte, Counter64)>>)
    ensures r.Some? ==> 0 < r.value.used <= |d| && r.value.left == len - r.value.used
  {
    var outer :- ParseHead(d, len);
    if outer.tag != COUNTER64 && outer.tag != OPAQUE then None
    else
      var special :-
        if outer.tag == OPAQUE && outer.n <= OPAQUE_COUNTER64_MX_BER_LEN
        then Announces(d, outer.header, {OPAQUE_COUNTER64, OPAQUE_U64}) else Some(false);
      var h :- if special then ParseInner(d, outer, len) else Some(outer);
      if h.n > 9 then None
      else
        var c :- ContentOf(d, h);
        if h.n == 9 && c[0] != 0 then None
        else Some(Parsed((h.tag, Halves(UVal(c))), h.header + h.n, Lowered(len, h)))
  }

  /** The registers Asn01_parseSignedInt64 starts from when the first octet has its top bit set;
      they are what an empty content leaves behind. */
  const SIGN_REGISTERS := Counter64(0xff_ffff, 0xffff_ffff)

  /** Asn01_parseSignedInt64 */
  function ParseSignedInt64(d: seq<Byte>, len: nat): (r: Option<Parsed<(Byte, Counter64)>>)
    ensures r.Some? ==> 0 < r.value.used <= |d| && r.value.left == len - r.value.used
  {
    var outer :- ParseHead(d, len);
    if outer.tag != OPAQUE || outer.n > OPAQUE_COUNTER64_MX_BER_LEN then None
    else
      var special :- Announces(d, outer.header, {OPAQUE_I64});
      if !special then None
      else
        var h :- ParseInner(d, outer, len);
        if h.n > 9 || h.header >= |d| then None
        else
          var c :- ContentOf(d, h);
          if h.n == 9 && c[0] != 0 then None
          else
            var v := if h.n > 0 then Halves(SignedVal(c)) else if d[h.header] >= 128 then SIGN_REGISTERS else Halves(0);
            Some(Parsed((h.tag, v), h.header + h.n, Lowered(len, h)))
  }

  // ----- bit strings, floats and doubles ------------------------------------------------

  /** Asn01_parseBitstring into a buffer of `capacity` octets */
  function ParseBitstring(d: seq<Byte>, len: nat, capacity: nat): (r: Option<Parsed<seq<Byte>>>)
    ensures r.Some? ==> 0 < r.value.used <= |d| && r.value.left == len - r.value.used && r.value.value != []
  {
    var h :- ParseHead(d, len);
    if h.tag != BIT_STR || h.n > capacity || h.n < 1 then None
    else
      var c :- ContentOf(d, h);
      Some(Parsed(c, h.header + h.n, Lowered(len, h)))
  }

  /** The content of Asn01_parseFloat and Asn01_parseDouble. The pointer they return is still in
      front of it, although `*datalength` is lowered by it as well. */
  function ParseReal(d: seq<Byte>, len: nat, tag: Byte, size: nat): (r: Option<Parsed<seq<Byte>>>)
    ensures r.Some? ==> |r.value.value| == size && 0 < r.value.used && r.value.used + size <= |d|
                        && r.value.left == len - r.value.used - size
  {
    var outer :- ParseHead(d, len);
    var special :-
      if outer.tag == OPAQUE && outer.n == size + 3 then Announces(d, outer.header, {tag}) else Some(false);
    var h :- if special then ParseInner(d, outer, len) else Some(outer);
    if h.tag != tag || h.n != size then None
    else
      var c :- ContentOf(d, h);
      Some(Parsed(c, h.header, Lowered(len, h)))
  }

  function ParseFloat(d: seq<Byte>, len: nat): (r: Option<Parsed<SubId>>)
    ensures r.Some? ==> 0 < r.value.used && r.value.used + 4 <= |d| && r.value.left == len - r.value.used - 4
  {
    var c :- ParseReal(d, len, OPAQUE_FLOAT, 4);
    Some(Parsed(HostOrder(c.value), c.used, c.left))
  }

  function ParseDouble(d: seq<Byte>, len: nat): (r: Option<Parsed<Counter64>>)
    ensures r.Some? ==> 0 < r.value.used && r.value.used + 8 <= |d| && r.value.left == len - r.value.used - 8
  {
    var c :- ParseReal(d, len, OPAQUE_DOUBLE, 8);
    Some(Parsed(Counter64(HostOrder(c.value[..4]), HostOrder(c.value[4..])), c.used, c.left))
  }

  // ----- object identifiers -------------------------------------------------------------

  /** Number of octets of the first sub-identifier; 0 when the last octet still has bit 8. */
  function FirstGroup(c: seq<Byte>): (k: nat)
    ensures k <= |c|
  {
    if c == [] then 0
    else if c[0] < 128 then 1
    else
      var k := FirstGroup(c[1..]);
      if k == 0 then 0 else k + 1
  }

  function DecodeSubIds(c: seq<Byte>, slots: nat): (r: Option<ObjectId>)
    ensures r.Some? && c != [] ==> r.value != []
  {
    if c == [] then Some([])
    else if slots == 0 then None
    else
      var k := FirstGroup(c);
      var v := Val128(c[..k]) % TWO_64;
      if k == 0 || v >= TWO_32 then None
      else
        var rest :- DecodeSubIds(c[k..], slots - 1);
        Some([v] + rest)
  }

  /** X * 40 + Y taken apart again. */
  function SplitFirst(x: SubId): ObjectId {
    if x < 40 then [0, x] else if x < 80 then [1, x - 40] else [2, x - 80]
  }

  /** Asn01_parseObjid into `slots` sub-identifiers */
  function ParseObjid(d: seq<Byte>, len: nat, slots: nat): (r: Option<Parsed<ObjectId>>)
    requires slots >= 1
    ensures r.Some? ==> 0 < r.value.used <= |d| && r.value.left == len - r.value.used
  {
    var h :- ParseHead(d, len);
    if h.tag != OBJECT_ID then None
    else
      var c :- ContentOf(d, h);
      if c == [] then Some(Parsed([0], h.header, Lowered(len, h)))
      else
        var subs :- DecodeSubIds(c, slots - 1);
        Some(Parsed(SplitFirst(subs[0]) + subs[1..], h.header + h.n, Lowered(len, h)))
  }

  // ----- headers ------------------------------------------------------------------------

  const SPECIAL_TAGS: set<Byte> := {OPAQUE_COUNTER64, OPAQUE_U64, OPAQUE_FLOAT, OPAQUE_DOUBLE, OPAQUE_I64}

  /** Asn01_parseHeader: the type, the length of the content and where it starts */
  function ParseHeader(d: seq<Byte>, len: nat): (r: Option<Head>)
    ensures r.Some? ==> 2 <= r.value.header <= |d| && r.value.header + r.value.n <= len && r.value.n <= MAX_LENGTH
  {
    if d == [] || d[0] % 32 == 31 then None
    else
      var h :- ParseHead(d, len);
      if h.tag != OPAQUE then Some(h)
      else
        var special :- Announces(d, h.header, SPECIAL_TAGS);
        if special then ParseInner(d, h, len) else Some(h)
  }

  /** Asn01_parseSequence */
  function ParseSequence(d: seq<Byte>, len: nat, expected: Byte): (r: Option<Head>)
    ensures r.Some? ==> 2 <= r.value.header <= |d| && r.value.header + r.value.n <= len && r.value.n <= MAX_LENGTH
  {
    var h :- ParseHeader(d, len);
    if h.tag != expected then None else Some(h)
  }
}
