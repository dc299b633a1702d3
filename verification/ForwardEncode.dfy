/** The forward builders of Asn01.c: every one appends one encoding at the data pointer. */
module ForwardEncode {
  import opened Bytes
  import opened Ber
  import opened ForwardBuffer

  /** Length octets as Asn01_buildLength writes them: never more than two after the count. */
  function ForwardLength(n: nat): seq<Byte> {
    if n < 0x80 then [n]
    else if n <= 0xff then [0x81, n]
    else [0x82, n / 256 % 256, n % 256]
  }

  /** They are the definite form of X.690 exactly as long as two octets suffice. */
  lemma ForwardLengthAgrees(n: nat)
    ensures ForwardLength(n) == EncLength(n) <==> n <= 0xffff
  {
    if n <= 0xffff {
      assert n >= 256 ==> Base256(n) == [n / 256] + [n % 256];
    } else {
      Pow256Values();
      Base256Length(n, 2);
    }
  }

  function ForwardTlv(tag: Byte, content: seq<Byte>): (e: seq<Byte>)
    ensures |e| == 1 + |ForwardLength(|content|)| + |content|
  {
    [tag] + ForwardLength(|content|) + content
  }

  /** Asn01_buildLength */
  method BuildLength(c: Cursor, length: nat) returns (ok: bool)
    requires c.Valid()
    modifies c, c.buf
    ensures c.Appended(ForwardLength(length), ok)
  {
    if length < 0x80 {
      ok := c.left >= 1;
      if ok {
        c.Store(length);
      }
    } else if length <= 0xff {
      ok := c.left >= 2;
      if ok {
        c.Store(0x81);
        c.Store(length);
      }
    } else {
      ok := c.left >= 3;
      if ok {
        c.Store(0x82);
        c.Store(length / 256 % 256);
        c.Store(length % 256);
      }
    }
  }

  /** Asn01_buildHeader */
  method BuildHeader(c: Cursor, tag: Byte, length: nat) returns (ok: bool)
    requires c.Valid()
    modifies c, c.buf
    ensures c.Appended([tag] + ForwardLength(length), ok)
  {
    hide ForwardLength;
    ok := c.left >= 1;
    if ok {
      Assoc(c.content, [tag], ForwardLength(length));
      c.Store(tag);
      ok := BuildLength(c, length);
    }
  }

  /** Asn01_buildHeader and the room check every caller makes after it */
  method HeaderWithRoom(c: Cursor, tag: Byte, length: nat) returns (ok: bool)
    requires c.Valid()
    modifies c, c.buf
    ensures ok <==> 1 + |ForwardLength(length)| + length <= old(c.left)
    ensures ok ==> c.Valid() && c.content == old(c.content) + ([tag] + ForwardLength(length))
                   && c.left == old(c.left) - 1 - |ForwardLength(length)|
  {
    hide ForwardLength;
    ok := BuildHeader(c, tag, length);
    if ok {
      ok := c.left >= length;
    }
  }

  lemma ContentJoins(before: seq<Byte>, tag: Byte, content: seq<Byte>)
    ensures (before + ([tag] + ForwardLength(|content|))) + content == before + ForwardTlv(tag, content)
  {
    hide ForwardLength;
    Assoc(before, [tag] + ForwardLength(|content|), content);
  }

  // ----- integers in one register -------------------------------------------------------

  /** Shifts redundant sign octets off the most significant end of an eight-octet register. */
  method Strip(value: Long) returns (integer: nat, intsize: nat)
    ensures intsize == |TwosContent(value)| <= 8 && integer == Aligned(TwosContent(value))
  {
    ghost var s := LongBytes(value);
    integer, intsize := value % TWO_64, 8;
    var mask := 0x80_0000_0000_0000; // the top nine bits are what is left above 2^55
    while (integer / mask == 0 || integer / mask == 0x1ff) && intsize > 1
      invariant 1 <= intsize == |s| <= 8 && integer == Aligned(s) && SignedVal(s) == value
      decreases intsize
    {
      ShiftRegister(s);
      DropSign(s);
      s := s[1..];
      integer, intsize := integer * 256 % TWO_64, intsize - 1;
    }
    ShiftRegister(s);
    TwosUnique(s);
  }

  /** Writes the octets of a register, most significant first. */
  method ShiftOut(c: Cursor, register: nat, size: nat, ghost s: seq<Byte>)
    requires c.Valid() && |s| == size <= 8 && c.left >= size && register == Aligned(s)
    modifies c, c.buf
    ensures c.Valid() && c.content == old(c.content) + s && c.left == old(c.left) - size
  {
    hide Aligned;
    var integer, intsize := register, size;
    ghost var k := 0;
    while intsize > 0
      invariant 0 <= k <= |s| && intsize == size - k && integer == Aligned(s[k..])
      invariant c.Valid() && c.content == old(c.content) + s[..k] && c.left == old(c.left) - k
    {
      ShiftRegister(s[k..]);
      assert s[k..][1..] == s[k + 1..] && s[..k + 1] == s[..k] + [s[k]];
      Assoc(old(c.content), s[..k], [s[k]]);
      c.Store(integer / 0x100_0000_0000_0000);
      integer, intsize, k := integer * 256 % TWO_64, intsize - 1, k + 1;
    }
    assert s[..k] == s;
  }

  /** Asn_buildInt */
  method BuildInt(c: Cursor, tag: Byte, value: Long) returns (ok: bool)
    requires c.Valid()
    modifies c, c.buf
    ensures c.Appended(ForwardTlv(tag, TwosContent(Overflow32(value))), ok)
  {
    hide TwosContent, ForwardLength, Aligned, Overflow32;
    OverflowRange(value);
    var integer, intsize := Strip(Overflow32(value));
    ghost var s := TwosContent(Overflow32(value));
    ContentJoins(c.content, tag, s);
    ok := HeaderWithRoom(c, tag, intsize);
    if ok {
      ShiftOut(c, integer, intsize, s);
    }
  }

  lemma OverflowRange(value: Long)
    ensures -TWO_32 < Overflow32(value) < TWO_32
  {
  }

  /** Asn01_buildUnsignedInt: after the overflow macro the top bit of the register is clear, so
      the null octet the C code provides for is never added. */
  method BuildUnsignedInt(c: Cursor, tag: Byte, value: ULong) returns (ok: bool)
    requires c.Valid()
    modifies c, c.buf
    ensures c.Appended(ForwardTlv(tag, TwosContent(Overflow32U(value))), ok)
  {
    hide TwosContent, ForwardLength, Aligned;
    var integer, intsize := Strip(Overflow32U(value));
    ghost var s := TwosContent(Overflow32U(value));
    ContentJoins(c.content, tag, s);
    ok := HeaderWithRoom(c, tag, intsize);
    if ok {
      ShiftOut(c, integer, intsize, s);
    }
  }

  /** Asn01_buildString */
  method BuildString(c: Cursor, tag: Byte, str: seq<Byte>) returns (ok: bool)
    requires c.Valid()
    modifies c, c.buf
    ensures c.Appended(ForwardTlv(tag, str), ok)
  {
    hide ForwardLength;
    ContentJoins(c.content, tag, str);
    ok := HeaderWithRoom(c, tag, |str|);
    if ok {
      c.StoreAll(str);
    }
  }

  /** Asn01_buildBitstring: an empty one, which lacks even the count of unused bits, is refused. */
  method BuildBitstring(c: Cursor, tag: Byte, str: seq<Byte>) returns (ok: bool)
    requires c.Valid()
    modifies c, c.buf
    ensures str == [] ==> !ok
    ensures str != [] ==> c.Appended(ForwardTlv(tag, str), ok)
  {
    hide ForwardLength;
    if |str| < 1 {
      return false;
    }
    ContentJoins(c.content, tag, str);
    ok := HeaderWithRoom(c, tag, |str|);
    if ok {
      c.StoreAll(str);
    }
  }

  /** Asn01_buildNull */
  method BuildNull(c: Cursor, tag: Byte) returns (ok: bool)
    requires c.Valid()
    modifies c, c.buf
    ensures c.Appended(ForwardTlv(tag, []), ok)
  {
    ok := BuildHeader(c, tag, 0);
  }
}
