/** Octets, big-endian numbers and the fixed-width C integers the stack computes with. */
module Bytes {

  type Byte = x: int | 0 <= x < 256
  type SubId = x: int | 0 <= x < TWO_32       // the C typedef `oid`: uint32_t
  type Long = x: int | -TWO_63 <= x < TWO_63  // C `long`, 8 bytes
  type ULong = x: int | 0 <= x < TWO_64       // C `u_long` and `size_t`, 8 bytes
  type ObjectId = seq<SubId>

  const TWO_24 := 0x100_0000
  const TWO_31 := 0x8000_0000
  const TWO_32 := 0x1_0000_0000
  const TWO_63 := 0x8000_0000_0000_0000
  const TWO_64 := 0x1_0000_0000_0000_0000

  /** asnCHECK_OVERFLOW_SIGNED */
  function Overflow32(x: int): int {
    if x > TWO_31 - 1 then x % TWO_32
    else if x < -TWO_31 then 0 - x % TWO_32
    else x
  }

  /** asnCHECK_OVERFLOW_UNSIGNED */
  function Overflow32U(x: nat): nat {
    if x > TWO_32 - 1 then x % TWO_32 else x
  }

  /** Conversion to `int`, and of an `int` to `size_t`. */
  function ToInt(x: int): (i: int)
    ensures -TWO_31 <= i < TWO_31
    ensures 0 <= x < TWO_31 ==> i == x
  {
    var y := x % TWO_32;
    if y >= TWO_31 then y - TWO_32 else y
  }

  function ToSize(i: int): ULong {
    i % TWO_64
  }

  datatype Option<+T> = None | Some(value: T) {
    predicate IsFailure() { None? }
    function PropagateFailure<U>(): Option<U>
      requires None?
    {
      None
    }
    function Extract(): T
      requires Some?
    {
      value
    }
  }

  /** The number an octet string denotes in base 256, most significant octet first. */
  function UVal(s: seq<Byte>): nat {
    if s == [] then 0 else UVal(s[..|s| - 1]) * 256 + s[|s| - 1]
  }

  /** 256 to the power n. */
  function Pow256(n: nat): nat
    ensures Pow256(n) > 0
  {
    if n == 0 then 1 else Pow256(n - 1) * 256
  }

  /** Two's complement: the value of a non-empty octet string whose top bit is the sign. */
  function SignedVal(s: seq<Byte>): int {
    if s == [] then 0
    else if |s| == 1 then (if s[0] >= 128 then s[0] - 256 else s[0])
    else SignedVal(s[..|s| - 1]) * 256 + s[|s| - 1]
  }

  /** The octets htonl leaves in memory, and what ntohl makes of four octets there. */
  function NetworkOrder(w: SubId): (s: seq<Byte>)
    ensures |s| == 4
  {
    [w / 256 / 256 / 256, w / 256 / 256 % 256, w / 256 % 256, w % 256]
  }

  function HostOrder(s: seq<Byte>): SubId
    requires |s| == 4
  {
    (((s[0] as int) * 256 + s[1]) * 256 + s[2]) * 256 + s[3]
  }

  lemma NetworkOrderRoundTrip(w: SubId)
    ensures HostOrder(NetworkOrder(w)) == w
  {
    OctetOff(w);
    OctetOff(w / 256);
    OctetOff(w / 256 / 256);
  }

  lemma HostOrderRoundTrip(s: seq<Byte>)
    requires |s| == 4
    ensures NetworkOrder(HostOrder(s)) == s
  {
    var a, b := (s[0] as int) * 256 + s[1], ((s[0] as int) * 256 + s[1]) * 256 + s[2];
    OctetOn(s[0], s[1]);
    OctetOn(a, s[2]);
    OctetOn(b, s[3]);
    OctetOn(0, s[0]);
  }

  lemma OctetOn(n: nat, b: Byte)
    ensures (n * 256 + b) / 256 == n && (n * 256 + b) % 256 == b
  {
  }

  lemma OctetOff(n: nat)
    ensures n / 256 * 256 + n % 256 == n
  {
  }

  lemma Assoc<T>(a: seq<T>, b: seq<T>, c: seq<T>)
    ensures a + (b + c) == (a + b) + c
  {
  }

  lemma UValAppend(s: seq<Byte>, b: Byte)
    ensures UVal(s + [b]) == UVal(s) * 256 + b
  {
    assert (s + [b])[..|s|] == s;
  }

  lemma SignedValAppend(s: seq<Byte>, b: Byte)
    requires s != []
    ensures SignedVal(s + [b]) == SignedVal(s) * 256 + b
  {
    assert (s + [b])[..|s|] == s;
  }

  lemma MulAssoc(x: int, y: int, z: int)
    ensures x * y * z == x * (y * z)
  {
  }

  lemma {:induction false} UValConcat(s: seq<Byte>, t: seq<Byte>)
    ensures UVal(s + t) == UVal(s) * Pow256(|t|) + UVal(t)
  {
    if t == [] {
      assert s + t == s;
    } else {
      var u, b := t[..|t| - 1], t[|t| - 1];
      assert s + t == (s + u) + [b] && t == u + [b];
      UValAppend(s + u, b);
      UValAppend(u, b);
      UValConcat(s, u);
      MulAssoc(UVal(s), Pow256(|u|), 256);
    }
  }

  lemma UValOne(b: Byte)
    ensures UVal([b]) == b
  {
    assert [] + [b] == [b] && UVal([]) == 0;
    UValAppend([], b);
  }

  lemma UValCons(b: Byte, t: seq<Byte>)
    ensures UVal([b] + t) == b * Pow256(|t|) + UVal(t)
  {
    hide UVal;
    UValOne(b);
    UValConcat([b], t);
  }

  lemma {:induction false} UValBound(s: seq<Byte>)
    ensures UVal(s) < Pow256(|s|)
  {
    if s != [] {
      UValBound(s[..|s| - 1]);
    }
  }

  lemma Pow256Values()
    ensures Pow256(0) == 1 && Pow256(1) == 256 && Pow256(2) == 0x1_0000 && Pow256(3) == TWO_24
    ensures Pow256(4) == TWO_32 && Pow256(5) == 0x100_0000_0000 && Pow256(6) == 0x1_0000_0000_0000
    ensures Pow256(7) == 0x100_0000_0000_0000 && Pow256(8) == TWO_64
  {
    assert Pow256(1) == 256 * Pow256(0);
    assert Pow256(2) == 256 * Pow256(1);
    assert Pow256(3) == 256 * Pow256(2);
    assert Pow256(4) == 256 * Pow256(3);
    assert Pow256(5) == 256 * Pow256(4);
    assert Pow256(6) == 256 * Pow256(5);
    assert Pow256(7) == 256 * Pow256(6);
  }

  lemma {:induction false} Pow256Product(a: nat, b: nat)
    ensures Pow256(a) * Pow256(b) == Pow256(a + b)
  {
    if b > 0 {
      Pow256Product(a, b - 1);
    }
  }

  lemma {:induction false} Pow256Monotone(m: nat, n: nat)
    requires m <= n
    ensures Pow256(m) <= Pow256(n)
  {
    if m < n {
      Pow256Monotone(m, n - 1);
    }
  }

  /** Two's complement and plain base 256 differ by 256^n exactly when the top bit is set. */
  lemma {:induction false} SignedFromUnsigned(s: seq<Byte>)
    requires s != []
    ensures SignedVal(s) == UVal(s) - (if s[0] >= 128 then Pow256(|s|) else 0)
    ensures s[0] >= 128 <==> SignedVal(s) < 0
    ensures s[0] >= 128 <==> 2 * UVal(s) >= Pow256(|s|)
    ensures UVal(s) < Pow256(|s|)
  {
    UValBound(s);
    if |s| == 1 {
      assert UVal(s) == UVal(s[..0]) * 256 + s[0];
      assert Pow256(1) == 256 * Pow256(0);
    } else {
      var p, b := s[..|s| - 1], s[|s| - 1];
      assert s == p + [b];
      SignedFromUnsigned(p);
      SignedFromUnsignedStep(p, b);
    }
  }

  lemma SignedFromUnsignedStep(p: seq<Byte>, b: Byte)
    requires p != []
    requires SignedVal(p) == UVal(p) - (if p[0] >= 128 then Pow256(|p|) else 0)
    requires p[0] >= 128 <==> SignedVal(p) < 0
    requires p[0] >= 128 <==> 2 * UVal(p) >= Pow256(|p|)
    requires UVal(p) < Pow256(|p|)
    ensures var s := p + [b];
            && SignedVal(s) == UVal(s) - (if s[0] >= 128 then Pow256(|s|) else 0)
            && (s[0] >= 128 <==> SignedVal(s) < 0)
            && (s[0] >= 128 <==> 2 * UVal(s) >= Pow256(|s|))
  {
    hide UVal, SignedVal, Pow256;
    UValAppend(p, b);
    SignedValAppend(p, b);
    Pow256Next(|p|);
    Pow256Even(|p|);
  }

  lemma Pow256Next(n: nat)
    ensures Pow256(n + 1) == Pow256(n) * 256
  {
  }

  lemma Pow256Even(n: nat)
    requires n > 0
    ensures Pow256(n) % 2 == 0
  {
    assert Pow256(n) == 2 * (128 * Pow256(n - 1));
  }
}
