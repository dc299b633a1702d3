/** What the basic encoding rules of X.690 say an encoding is: length octets (8.1.3),
    minimal two's complement (8.3), base-128 sub-identifiers (8.19). These functions are
    the reference every builder and parser of the stack is proved against. */
module Ber {
  import opened Bytes

  // ----- length octets ------------------------------------------------------------------

  /** Shortest base-256 form of n. */
  function Base256(n: nat): seq<Byte> {
    if n < 256 then [n] else Base256(n / 256) + [n % 256]
  }

  lemma {:induction false} Base256Value(n: nat)
    ensures UVal(Base256(n)) == n
  {
    if n < 256 {
      assert Base256(n)[..0] == [];
    } else {
      Base256Value(n / 256);
      UValAppend(Base256(n / 256), n % 256);
    }
  }

  lemma {:induction false} Base256Length(n: nat, k: nat)
    requires k >= 1
    ensures |Base256(n)| <= k <==> n < Pow256(k)
  {
    assert Pow256(k) == Pow256(k - 1) * 256;
    if n < 256 {
      Pow256Monotone(0, k - 1);
    } else if k == 1 {
      assert Pow256(0) == 1;
    } else {
      Base256Length(n / 256, k - 1);
    }
  }

  /** `count | 0x80`; a size_t has at most eight octets, so larger counts never arise. */
  function CountOctet(count: nat): Byte {
    if count < 128 then 128 + count else 255
  }

  /** Definite form: one octet below 128, otherwise a count octet and the base-256 octets. */
  function EncLength(n: nat): (s: seq<Byte>)
    ensures |s| >= 1
  {
    if n < 128 then [n] else [CountOctet(|Base256(n)|)] + Base256(n)
  }

  function Tlv(tag: Byte, content: seq<Byte>): (e: seq<Byte>)
    ensures |e| == 1 + |EncLength(|content|)| + |content|
  {
    [tag] + EncLength(|content|) + content
  }

  // ----- integers -----------------------------------------------------------------------

  /** The content octets of an INTEGER. */
  function TwosContent(v: int): seq<Byte>
    ensures |TwosContent(v)| >= 1
    decreases if v < 0 then -v else v
  {
    if -128 <= v < 128 then [v % 256] else TwosContent(v / 256) + [v % 256]
  }

  /** X.690 8.3.2: the first nine bits are neither all zeros nor all ones. */
  predicate Minimal(c: seq<Byte>) {
    && |c| >= 1
    && (|c| >= 2 ==> !RedundantSign(c))
  }

  predicate RedundantSign(c: seq<Byte>)
    requires |c| >= 2
  {
    (c[0] == 0 && c[1] < 128) || (c[0] == 255 && c[1] >= 128)
  }

  lemma {:induction false} TwosValue(v: int)
    ensures SignedVal(TwosContent(v)) == v
    decreases if v < 0 then -v else v
  {
    if !(-128 <= v < 128) {
      TwosValue(v / 256);
      SignedValAppend(TwosContent(v / 256), v % 256);
    }
  }

  lemma TwosOneMore(w: int, b: Byte)
    requires !(-128 <= w * 256 + b < 128)
    ensures TwosContent(w * 256 + b) == TwosContent(w) + [b]
  {
    var v := w * 256 + b;
    assert v / 256 == w && v % 256 == b;
  }

  lemma TwosOneOctet(c: seq<Byte>)
    requires |c| == 1
    ensures SignedVal(c) == if c[0] >= 128 then (c[0] as int) - 256 else c[0]
    ensures TwosContent(SignedVal(c)) == c
  {
  }

  /** Two octets or more reach beyond one, unless the first says no more than the sign. */
  lemma BeyondOctet(w: int, b: Byte)
    requires !(w == 0 && b < 128) && !(w == -1 && b >= 128)
    ensures !(-128 <= w * 256 + b < 128)
  {
  }

  lemma TwosUniqueStep(p: seq<Byte>, b: Byte)
    requires p != [] && TwosContent(SignedVal(p)) == p
    requires !(SignedVal(p) == 0 && b < 128) && !(SignedVal(p) == -1 && b >= 128)
    ensures TwosContent(SignedVal(p + [b])) == p + [b] && !(-128 <= SignedVal(p + [b]) < 128)
  {
    hide SignedVal, TwosContent;
    SignedValAppend(p, b);
    BeyondOctet(SignedVal(p), b);
    TwosOneMore(SignedVal(p), b);
  }

  /** X.690 8.3.2 leaves no choice: minimal content octets are the ones TwosContent gives. */
  lemma {:induction false} TwosUnique(c: seq<Byte>)
    requires Minimal(c)
    ensures TwosContent(SignedVal(c)) == c
    ensures |c| >= 2 ==> !(-128 <= SignedVal(c) < 128)
  {
    hide SignedVal, TwosContent;
    if |c| == 1 {
      TwosOneOctet(c);
    } else {
      var p, b := c[..|c| - 1], c[|c| - 1];
      assert c == p + [b];
      TwosUnique(p);
      if |p| == 1 {
        TwosOneOctet(p);
      }
      TwosUniqueStep(p, b);
    }
  }

  lemma {:induction false} TwosMinimal(v: int)
    ensures Minimal(TwosContent(v))
    decreases if v < 0 then -v else v
  {
    if !(-128 <= v < 128) {
      TwosMinimal(v / 256);
      if -128 <= v / 256 < 128 {
        assert TwosContent(v) == [(v / 256) % 256, v % 256];
      }
    }
  }

  lemma {:induction false} TwosLength(v: int, k: nat)
    requires k >= 1
    ensures |TwosContent(v)| <= k <==> -128 * Pow256(k - 1) <= v < 128 * Pow256(k - 1)
    decreases if v < 0 then -v else v
  {
    assert k > 1 ==> Pow256(k - 1) == Pow256(k - 2) * 256;
    if -128 <= v < 128 {
    } else if k == 1 {
    } else {
      TwosLength(v / 256, k - 1);
    }
  }

  /** The octets a shift-right loop emits until only the sign is left; none for 0 and -1. */
  function Digits(v: int): seq<Byte>
    decreases if v < 0 then -v else v
  {
    if v == 0 || v == -1 then [] else Digits(v / 256) + [v % 256]
  }

  function SignOctet(v: int): Byte {
    if v < 0 then 255 else 0
  }

  /** First octet, then shift until the sign is left, then a sign octet if the top bit lies:
      this is how the reverse builders reach the minimal form. */
  function ShiftedOut(v: int): seq<Byte>
    ensures |ShiftedOut(v)| >= 1
  {
    Digits(v / 256) + [v % 256]
  }

  function SignPrefix(s: seq<Byte>, v: int): seq<Byte>
    requires |s| >= 1
  {
    if (s[0] >= 128) != (v < 0) then [SignOctet(v)] else []
  }

  function WithSign(s: seq<Byte>, v: int): seq<Byte>
    requires |s| >= 1
  {
    SignPrefix(s, v) + s
  }

  lemma {:induction false} ShiftLoopIsMinimal(v: int)
    ensures WithSign(ShiftedOut(v), v) == TwosContent(v)
    decreases if v < 0 then -v else v
  {
    var h := v / 256;
    if h != 0 && h != -1 {
      hide TwosContent, WithSign, Digits;
      ShiftLoopIsMinimal(h);
      DigitsUnfold(h);
      WithSignMore(ShiftedOut(h), v);
      TwosOneMore(h, v % 256);
    } else {
      assert ShiftedOut(v) == [v % 256];
      if !(-128 <= v < 128) {
        assert TwosContent(h) == [SignOctet(v)];
      }
    }
  }

  lemma DigitsUnfold(h: int)
    requires h != 0 && h != -1
    ensures Digits(h) == Digits(h / 256) + [h % 256]
  {
  }

  lemma WithSignMore(s: seq<Byte>, v: int)
    requires |s| >= 1
    ensures WithSign(s + [v % 256], v) == WithSign(s, v / 256) + [v % 256]
  {
    assert (s + [v % 256])[0] == s[0] && (v < 0 <==> v / 256 < 0);
    Assoc(SignPrefix(s, v / 256), s, [v % 256]);
  }

  /** Dropping a redundant sign octet keeps the value: the step of the forward builders. */
  lemma DropSign(c: seq<Byte>)
    requires |c| >= 2 && RedundantSign(c)
    ensures SignedVal(c[1..]) == SignedVal(c)
  {
    hide UVal, SignedVal, Pow256;
    var t := c[1..];
    assert c == [c[0]] + t && t[0] == c[1];
    UValCons(c[0], t);
    SignedFromUnsigned(c);
    SignedFromUnsigned(t);
    Pow256Next(|t|);
  }

  // ----- a 64-bit register holding octets at its most significant end --------------------

  function Padded(s: seq<Byte>): (p: seq<Byte>)
    requires |s| <= 8
    ensures |p| == 8
  {
    s + seq(8 - |s|, _ => 0)
  }

  function Aligned(s: seq<Byte>): nat
    requires |s| <= 8
  {
    UVal(Padded(s))
  }

  lemma EightOctets(s: seq<Byte>)
    requires |s| == 8
    ensures UVal(s) == (s[0] as int) * 0x100_0000_0000_0000 + (s[1] as int) * 0x1_0000_0000_0000
                     + (s[2] as int) * 0x100_0000_0000 + (s[3] as int) * 0x1_0000_0000
                     + (s[4] as int) * 0x100_0000 + (s[5] as int) * 0x1_0000 + (s[6] as int) * 0x100 + s[7]
  {
    FourOctets(s[..4]);
    assert s[..8] == s;
    assert s[..8][..7] == s[..7] && s[..7][..6] == s[..6] && s[..6][..5] == s[..5] && s[..5][..4] == s[..4];
    assert UVal(s[..8]) == UVal(s[..7]) * 256 + s[7];
    assert UVal(s[..7]) == UVal(s[..6]) * 256 + s[6];
    assert UVal(s[..6]) == UVal(s[..5]) * 256 + s[5];
    assert UVal(s[..5]) == UVal(s[..4]) * 256 + s[4];
  }

  lemma FourOctets(s: seq<Byte>)
    requires |s| == 4
    ensures UVal(s) == (s[0] as int) * 0x100_0000 + (s[1] as int) * 0x1_0000 + (s[2] as int) * 0x100 + s[3]
  {
    assert s[..3][..2] == s[..2] && s[..2][..1] == s[..1] && s[..1][..0] == [];
    assert UVal(s[..1]) == UVal(s[..0]) * 256 + s[0];
    assert UVal(s[..2]) == UVal(s[..1]) * 256 + s[1];
    assert UVal(s[..3]) == UVal(s[..2]) * 256 + s[2];
  }

  lemma TopNineBits(p: seq<Byte>)
    requires |p| == 8
    ensures UVal(p) / 0x80_0000_0000_0000 == (p[0] as int) * 2 + p[1] / 128
  {
    EightOctets(p);
  }

  lemma RegisterShift(p: seq<Byte>)
    requires |p| == 8
    ensures UVal(p) < TWO_64 && UVal(p) / 0x100_0000_0000_0000 == p[0]
    ensures UVal(p) * 256 % TWO_64 == UVal(p[1..] + [0])
  {
    hide UVal, Pow256;
    var t := p[1..];
    assert p == [p[0]] + t;
    UValCons(p[0], t);
    UValAppend(t, 0);
    UValBound(t);
    Pow256Values();
    TopOctet(UVal(p), p[0], UVal(t));
  }

  lemma TopOctet(u: nat, top: Byte, v: nat)
    requires u == top * 0x100_0000_0000_0000 + v && v < 0x100_0000_0000_0000
    ensures u < TWO_64 && u / 0x100_0000_0000_0000 == top && u * 256 % TWO_64 == v * 256
  {
    assert u * 256 == top * TWO_64 + v * 256;
  }

  /** The top octet, the top nine bits and a shift by eight of such a register. */
  lemma ShiftRegister(s: seq<Byte>)
    requires 1 <= |s| <= 8
    ensures Aligned(s) < TWO_64
    ensures Aligned(s) / 0x100_0000_0000_0000 == s[0]
    ensures (Aligned(s) * 256) % TWO_64 == Aligned(s[1..])
    ensures |s| >= 2 ==> Aligned(s) / 0x80_0000_0000_0000 == (s[0] as int) * 2 + s[1] / 128
  {
    hide UVal;
    var p := Padded(s);
    assert Padded(s[1..]) == p[1..] + [0];
    RegisterShift(p);
    if |s| >= 2 {
      TopNineBits(p);
    }
  }

  /** The n least significant octets of u, in two's complement when u is negative. */
  function FixedBytes(u: int, n: nat): (s: seq<Byte>)
    ensures |s| == n
    decreases n
  {
    if n == 0 then [] else FixedBytes(u / 256, n - 1) + [u % 256]
  }

  lemma {:induction false} FixedBytesValue(u: nat, n: nat)
    requires u < Pow256(n)
    ensures UVal(FixedBytes(u, n)) == u
  {
    if n > 0 {
      assert Pow256(n) == Pow256(n - 1) * 256;
      FixedBytesValue(u / 256, n - 1);
      UValAppend(FixedBytes(u / 256, n - 1), u % 256);
    }
  }

  /** n arithmetic shifts right by eight. */
  function Shr(v: int, n: nat): int
    decreases n
  {
    if n == 0 then v else Shr(v / 256, n - 1)
  }

  lemma {:induction false} FixedBytesSplit(v: int, m: nat, n: nat)
    ensures FixedBytes(v, m + n) == FixedBytes(Shr(v, n), m) + FixedBytes(v, n)
    decreases n
  {
    hide FixedBytes, Shr;
    FixedBytesUnfold(v, n);
    if n > 0 {
      FixedBytesSplit(v / 256, m, n - 1);
      FixedBytesUnfold(v, m + n);
      Assoc(FixedBytes(Shr(v, n), m), FixedBytes(v / 256, n - 1), [v % 256]);
    } else {
      assert FixedBytes(v, m) + [] == FixedBytes(v, m);
    }
  }

  lemma FixedBytesUnfold(v: int, n: nat)
    ensures FixedBytes(v, n) == if n == 0 then [] else FixedBytes(v / 256, n - 1) + [v % 256]
    ensures Shr(v, n) == if n == 0 then v else Shr(v / 256, n - 1)
  {
  }

  /** Only u modulo 256^n matters. */
  lemma {:induction false} FixedBytesPeriodic(u: int, m: int, n: nat)
    ensures FixedBytes(u + m * Pow256(n), n) == FixedBytes(u, n)
    decreases n
  {
    hide FixedBytes, Pow256;
    if n > 0 {
      var q := m * Pow256(n - 1);
      Pow256Next(n - 1);
      MulAssoc(m, Pow256(n - 1), 256);
      MultipleOff(u, q);
      FixedBytesPeriodic(u / 256, m, n - 1);
      FixedBytesUnfold(u + q * 256, n);
      FixedBytesUnfold(u, n);
    } else {
      FixedBytesUnfold(u + m * Pow256(0), 0);
      FixedBytesUnfold(u, 0);
    }
  }

  lemma MultipleOff(u: int, q: int)
    ensures (u + q * 256) / 256 == u / 256 + q && (u + q * 256) % 256 == u % 256
  {
  }

  function Copies(n: nat, b: Byte): (s: seq<Byte>)
    ensures |s| == n
  {
    seq(n, _ => b)
  }

  lemma CopiesNext(n: nat, b: Byte)
    ensures Copies(n + 1, b) == [b] + Copies(n, b) == Copies(n, b) + [b]
  {
  }

  lemma {:induction false} FixedBytesOfSign(sign: int, n: nat)
    requires sign == 0 || sign == -1
    ensures FixedBytes(sign, n) == Copies(n, SignOctet(sign))
  {
    if n > 0 {
      FixedBytesOfSign(sign, n - 1);
      CopiesNext(n - 1, SignOctet(sign));
    }
  }

  /** What the shift loop has emitted after n steps, none of which found only the sign left. */
  lemma {:induction false} DigitsAfter(v: int, n: nat)
    requires n > 0 ==> Shr(v, n - 1) != 0 && Shr(v, n - 1) != -1
    ensures Digits(v) == Digits(Shr(v, n)) + FixedBytes(v, n)
    decreases n
  {
    if n > 0 {
      if n > 1 {
        DigitsAfter(v / 256, n - 1);
      }
      ShrOfSign(v, n - 1);
    }
  }

  lemma {:induction false} ShrOfSign(v: int, n: nat)
    ensures v == 0 || v == -1 ==> Shr(v, n) == v
    decreases n
  {
    if n > 0 {
      ShrOfSign(v / 256, n - 1);
    }
  }

  lemma ShiftedOutAfter(v: int, n: nat)
    requires n >= 1
    requires n > 1 ==> Shr(v, n - 1) != 0 && Shr(v, n - 1) != -1
    ensures ShiftedOut(v) == Digits(Shr(v, n)) + FixedBytes(v, n)
  {
    DigitsAfter(v / 256, n - 1);
  }

  /** The eight octets a C `long` consists of. */
  lemma LongBytes(v: Long) returns (s: seq<Byte>)
    ensures |s| == 8 && UVal(s) == v % TWO_64 && SignedVal(s) == v && Aligned(s) == v % TWO_64
  {
    hide UVal, SignedVal, FixedBytes, Pow256;
    Pow256Values();
    s := FixedBytes(v % TWO_64, 8);
    FixedBytesValue(v % TWO_64, 8);
    SignedFromUnsigned(s);
    assert Padded(s) == s;
    SignedOf(v);
  }

  lemma SignedOf(v: Long)
    ensures v == v % TWO_64 - (if 2 * (v % TWO_64) >= TWO_64 then TWO_64 else 0)
  {
    assert v < 0 ==> v % TWO_64 == v + TWO_64;
  }

  // ----- object identifiers -------------------------------------------------------------

  /** Leading octets of a sub-identifier, most significant first, each with bit 8 set. */
  function Leading(n: nat): seq<Byte> {
    if n == 0 then [] else Leading(n / 128) + [128 + n % 128]
  }

  function EncSubId(n: nat): (s: seq<Byte>)
    ensures |s| >= 1
  {
    Leading(n / 128) + [n % 128]
  }

  function EncSubIds(ns: ObjectId): seq<Byte> {
    if ns == [] then [] else EncSubId(ns[0]) + EncSubIds(ns[1..])
  }

  /** The value of base-128 octets. */
  function Val128(s: seq<Byte>): nat {
    if s == [] then 0 else Val128(s[..|s| - 1]) * 128 + s[|s| - 1] % 128
  }

  /** X.690 8.19.2: bit 8 on all octets but the last, and no leading 0x80. */
  predicate WellFormedSubId(s: seq<Byte>) {
    && s != []
    && s[|s| - 1] < 128
    && (forall i :: 0 <= i < |s| - 1 ==> s[i] >= 128)
    && s[0] != 128
  }

  /** Bit 8 on every octet, and no leading 0x80. */
  predicate AllLeading(s: seq<Byte>) {
    && (forall i :: 0 <= i < |s| ==> s[i] >= 128)
    && (s != [] ==> s[0] != 128)
  }

  lemma Val128Append(s: seq<Byte>, b: Byte)
    ensures Val128(s + [b]) == Val128(s) * 128 + b % 128
  {
    assert (s + [b])[..|s|] == s;
  }

  lemma LeadingOneMore(v: nat, b: Byte)
    requires b >= 128 && (v == 0 ==> b != 128)
    ensures Leading(v * 128 + b % 128) == Leading(v) + [b]
  {
    var w := v * 128 + b % 128;
    assert w / 128 == v && 128 + w % 128 == b;
  }

  lemma LeadingAppend(s: seq<Byte>, b: Byte)
    requires b >= 128 && AllLeading(s) && (s == [] ==> b != 128)
    ensures AllLeading(s + [b])
  {
    assert s != [] ==> (s + [b])[0] == s[0];
  }

  lemma LeadingPropsStep(m: nat, b: Byte)
    requires Val128(Leading(m)) == m && AllLeading(Leading(m)) && (Leading(m) == [] ==> m == 0)
    requires b >= 128 && (m == 0 ==> b != 128)
    ensures var s := Leading(m * 128 + b % 128);
            Val128(s) == m * 128 + b % 128 && AllLeading(s) && s != []
  {
    hide Val128, AllLeading, Leading;
    LeadingOneMore(m, b);
    Val128Append(Leading(m), b);
    LeadingAppend(Leading(m), b);
  }

  lemma LowSeven(n: nat)
    ensures n / 128 * 128 + (128 + n % 128) % 128 == n
  {
    assert (128 + n % 128) % 128 == n % 128;
  }

  lemma LeadingZero()
    ensures Leading(0) == [] && Val128([]) == 0 && AllLeading([])
  {
  }

  lemma {:induction false} LeadingProps(n: nat)
    ensures Val128(Leading(n)) == n && AllLeading(Leading(n))
    ensures Leading(n) == [] ==> n == 0
  {
    hide Val128, AllLeading, Leading;
    if n == 0 {
      LeadingZero();
    } else {
      LeadingProps(n / 128);
      LeadingPropsStep(n / 128, 128 + n % 128);
      LowSeven(n);
    }
  }

  lemma SubIdFromLeading(p: seq<Byte>, b: Byte)
    requires AllLeading(p) && b < 128
    ensures WellFormedSubId(p + [b])
  {
    assert p != [] ==> (p + [b])[0] == p[0];
  }

  lemma EncSubIdWellFormed(n: nat)
    ensures WellFormedSubId(EncSubId(n)) && Val128(EncSubId(n)) == n
  {
    hide Leading, Val128;
    LeadingProps(n / 128);
    var p, b := Leading(n / 128), n % 128;
    Val128Append(p, b);
    SubIdFromLeading(p, b);
  }

  lemma AllButLast(p: seq<Byte>, b: Byte)
    requires AllLeading(p + [b])
    ensures AllLeading(p) && b >= 128 && (p == [] ==> b != 128)
  {
    var s := p + [b];
    assert s[|p|] == b && s[0] == if p == [] then b else p[0];
    assert forall i :: 0 <= i < |p| ==> p[i] == s[i];
  }

  lemma MoreThanZero(v: nat, b: Byte)
    requires b >= 128 && (v == 0 ==> b != 128)
    ensures v * 128 + b % 128 > 0
  {
  }

  lemma {:induction false} LeadingUnique(s: seq<Byte>)
    requires AllLeading(s)
    ensures Leading(Val128(s)) == s
    ensures s != [] ==> Val128(s) > 0
  {
    hide Val128, AllLeading, Leading;
    if s == [] {
      LeadingZero();
    } else {
      var p, b := s[..|s| - 1], s[|s| - 1];
      assert s == p + [b];
      AllButLast(p, b);
      LeadingUnique(p);
      if p == [] {
        LeadingZero();
      }
      Val128Append(p, b);
      LeadingOneMore(Val128(p), b);
      MoreThanZero(Val128(p), b);
    }
  }

  /** X.690 8.19.2 leaves no choice either. */
  lemma SubIdUnique(s: seq<Byte>)
    requires WellFormedSubId(s)
    ensures EncSubId(Val128(s)) == s
  {
    hide Val128, Leading;
    var p, b := s[..|s| - 1], s[|s| - 1];
    assert s == p + [b];
    assert p != [] ==> p[0] == s[0];
    LeadingUnique(p);
    Val128Append(p, b);
  }

  /** The thresholds of the forward builder's size table. */
  lemma SubIdOctets(n: nat)
    requires n < TWO_32
    ensures EncSubId(n) ==
      if n < 0x80 then [n]
      else if n < 0x4000 then [128 + n / 0x80, n % 128]
      else if n < 0x20_0000 then [128 + n / 0x4000, 128 + n / 0x80 % 128, n % 128]
      else if n < 0x1000_0000 then
        [128 + n / 0x20_0000, 128 + n / 0x4000 % 128, 128 + n / 0x80 % 128, n % 128]
      else
        [128 + n / 0x1000_0000, 128 + n / 0x20_0000 % 128, 128 + n / 0x4000 % 128, 128 + n / 0x80 % 128, n % 128]
  {
    hide EncSubId;
    if n < 0x4000 {
      UpToTwoOctets(n);
    } else if n < 0x20_0000 {
      ThreeOctets(n);
    } else if n < 0x1000_0000 {
      FourSubIdOctets(n);
    } else {
      FiveOctets(n);
    }
  }

  lemma UpToTwoOctets(n: nat)
    requires n < 0x4000
    ensures EncSubId(n) == if n < 0x80 then [n] else [128 + n / 0x80, n % 128]
  {
    hide Leading;
    LeadingUnfolds(n / 128);
    LeadingUnfolds(0);
  }

  lemma ThreeOctets(n: nat)
    requires 0x4000 <= n < 0x20_0000
    ensures EncSubId(n) == [128 + n / 0x4000, 128 + n / 0x80 % 128, n % 128]
  {
    hide Leading;
    SevenBitShifts(n);
    LeadingUnfolds(n / 128);
    LeadingUnfolds(n / 0x4000);
    LeadingUnfolds(0);
  }

  lemma FourSubIdOctets(n: nat)
    requires 0x20_0000 <= n < 0x1000_0000
    ensures EncSubId(n) == [128 + n / 0x20_0000, 128 + n / 0x4000 % 128, 128 + n / 0x80 % 128, n % 128]
  {
    hide Leading;
    SevenBitShifts(n);
    LeadingUnfolds(n / 128);
    LeadingUnfolds(n / 0x4000);
    LeadingUnfolds(n / 0x20_0000);
    LeadingUnfolds(0);
  }

  lemma FiveOctets(n: nat)
    requires 0x1000_0000 <= n < TWO_32
    ensures EncSubId(n) ==
      [128 + n / 0x1000_0000, 128 + n / 0x20_0000 % 128, 128 + n / 0x4000 % 128, 128 + n / 0x80 % 128, n % 128]
  {
    hide Leading;
    SevenBitShifts(n);
    LeadingUnfolds(n / 128);
    LeadingUnfolds(n / 0x4000);
    LeadingUnfolds(n / 0x20_0000);
    LeadingUnfolds(n / 0x1000_0000);
    LeadingUnfolds(0);
  }

  lemma SevenBitShifts(n: nat)
    requires n < TWO_32
    ensures n / 128 / 128 == n / 0x4000 && n / 0x4000 / 128 == n / 0x20_0000
    ensures n / 0x20_0000 / 128 == n / 0x1000_0000 && n / 0x1000_0000 / 128 == 0
    ensures n < 0x80 <==> n / 128 == 0
    ensures n < 0x4000 <==> n / 0x4000 == 0
    ensures n < 0x20_0000 <==> n / 0x20_0000 == 0
    ensures n < 0x1000_0000 <==> n / 0x1000_0000 == 0
  {
  }

  lemma LeadingUnfolds(a: nat)
    ensures Leading(a) == if a == 0 then [] else Leading(a / 128) + [128 + a % 128]
    ensures a < 128 ==> a % 128 == a
  {
  }

  // ----- which object identifiers the builders take, and the content they give -----------

  /** The checks both OID builders make on the first two sub-identifiers. */
  predicate Buildable(o: ObjectId) {
    && (|o| >= 1 ==> o[0] <= 2)
    && (|o| >= 2 ==> !(o[1] > 40 && o[0] < 2))
  }

  /** The first two sub-identifiers combined, in the 32-bit arithmetic of `oid`. */
  function FirstTwo(o: ObjectId): SubId
    requires |o| >= 2
  {
    (o[0] * 40 + o[1]) % TWO_32
  }

  function Combined(o: ObjectId): ObjectId
    requires |o| >= 2
  {
    [FirstTwo(o)] + o[2..]
  }

  /** Content of Asn01_reallocRbuildObjid. */
  function OidContent(o: ObjectId): seq<Byte>
    requires Buildable(o)
  {
    if |o| == 0 then [0, 0] else if |o| == 1 then [o[0]] else EncSubIds(Combined(o))
  }

  /** Content of Asn01_buildObjid. */
  function ForwardOidContent(o: ObjectId): seq<Byte>
    requires Buildable(o)
  {
    if |o| == 0 then [0] else if |o| == 1 then [o[0] * 40] else EncSubIds(Combined(o))
  }

  /** The two OID builders agree from two sub-identifiers on, and below only on [0]. */
  lemma OidContentsAgree(o: ObjectId)
    requires Buildable(o)
    ensures OidContent(o) == ForwardOidContent(o) <==> |o| >= 2 || o == [0]
  {
  }
}
