/** Where one message ends and the next begins in a stream of octets. */
module Framing {
  import opened Bytes
  import opened Ber
  import opened ParseSpec
  import opened Tags

  const RXBUF_LEN := 0x1_0000
  const MAX_PACKET_LENGTH := 0x7fff_ffff

  /** The longest message that is always recognised: with fewer octets of it saved and a full
      receive buffer behind them, the number of octets still fits an `int`. */
  const LONGEST := TWO_31 - RXBUF_LEN

  /** What the octets at hand say about the message they begin with. */
  datatype Frame = Incomplete | Complete(n: nat) | WrongType | Unusable

  function HeaderLength(s: seq<Byte>): nat
    requires |s| >= 2
  {
    if s[1] >= 128 then s[1] - 128 + 2 else 2
  }

  /** Total octets of the message, header included. */
  function Total(s: seq<Byte>): nat
    requires |s| >= 2 && |s| >= HeaderLength(s)
  {
    HeaderLength(s) + if s[1] >= 128 then UVal(s[2..HeaderLength(s)]) else s[1]
  }

  /** Unusable: an indefinite length, one of more than eight octets, or a message over LONGEST. */
  function FrameOf(s: seq<Byte>): (f: Frame)
    ensures f.Complete? ==> 2 <= f.n <= |s|
    ensures f.Incomplete? ==> |s| < LONGEST
  {
    if |s| < 2 then Incomplete
    else if s[0] != SEQUENCE then WrongType
    else if s[1] == 128 || s[1] > 128 + 8 then Unusable
    else if |s| < HeaderLength(s) then Incomplete
    else if Total(s) > LONGEST then Unusable
    else if |s| < Total(s) then Incomplete
    else Complete(Total(s))
  }

  /** A stream taken apart: complete messages, what is left, and how the rest begins. */
  datatype Split = Split(packets: seq<seq<Byte>>, rest: seq<Byte>, ending: Frame)

  function SplitOf(s: seq<Byte>): (p: Split)
    ensures !p.ending.Complete? && p.ending == FrameOf(p.rest)
    ensures |p.rest| <= |s|
    decreases |s|
  {
    var f := FrameOf(s);
    if f.Complete? then
      var p := SplitOf(s[f.n..]);
      p.(packets := [s[..f.n]] + p.packets)
    else Split([], s, f)
  }

  function Concat(packets: seq<seq<Byte>>): seq<Byte> {
    if packets == [] then [] else packets[0] + Concat(packets[1..])
  }

  lemma NothingToConcat()
    ensures Concat([]) == []
  {
  }

  lemma ConcatFirst(p: seq<Byte>, packets: seq<seq<Byte>>)
    ensures Concat([p] + packets) == p + Concat(packets)
  {
    assert ([p] + packets)[1..] == packets;
  }

  /** Nothing is lost or made up. */
  lemma {:induction false} SplitConserves(s: seq<Byte>)
    ensures Concat(SplitOf(s).packets) + SplitOf(s).rest == s
    decreases |s|
  {
    hide FrameOf, Concat, SplitOf;
    var f := FrameOf(s);
    SplitUnfolds(s);
    if f.Complete? {
      SplitConserves(s[f.n..]);
      var p := SplitOf(s[f.n..]);
      ConcatFirst(s[..f.n], p.packets);
      Assoc(s[..f.n], Concat(p.packets), p.rest);
      assert s == s[..f.n] + s[f.n..];
    } else {
      NothingToConcat();
      assert [] + s == s;
    }
  }

  lemma SplitUnfolds(s: seq<Byte>)
    ensures var f := FrameOf(s);
            SplitOf(s) == if f.Complete? then var p := SplitOf(s[f.n..]); p.(packets := [s[..f.n]] + p.packets)
                          else Split([], s, f)
  {
  }

  /** Every packet is one whole message. */
  lemma {:induction false} SplitWhole(s: seq<Byte>, k: nat)
    requires k < |SplitOf(s).packets|
    ensures var p := SplitOf(s).packets[k]; FrameOf(p) == Complete(|p|)
    decreases |s|
  {
    hide FrameOf;
    var f := FrameOf(s);
    if k == 0 {
      FrameOfCut(s);
    } else {
      SplitWhole(s[f.n..], k - 1);
    }
  }

  lemma FrameOfCut(s: seq<Byte>)
    requires FrameOf(s).Complete?
    ensures FrameOf(s[..FrameOf(s).n]) == FrameOf(s)
  {
    var t := s[..FrameOf(s).n];
    var h := HeaderLength(s);
    assert h <= |t| && t[0] == s[0] && t[1] == s[1];
    assert t[2..h] == s[2..h];
  }

  /** Octets arriving behind change nothing once the frame is known. */
  lemma FrameExtends(s: seq<Byte>, t: seq<Byte>)
    requires !FrameOf(s).Incomplete?
    ensures FrameOf(s + t) == FrameOf(s)
  {
    if |s| >= HeaderLength(s) {
      assert (s + t)[2..HeaderLength(s)] == s[2..HeaderLength(s)];
    }
  }

  function Behind(packets: seq<seq<Byte>>, p: Split): Split {
    p.(packets := packets + p.packets)
  }

  /** Taking a stream apart in two goes: what was left is taken up again with the new octets. */
  lemma {:induction false} SplitExtends(s: seq<Byte>, t: seq<Byte>)
    ensures SplitOf(s).ending.Incomplete? ==> SplitOf(s + t) == Behind(SplitOf(s).packets, SplitOf(SplitOf(s).rest + t))
    ensures !SplitOf(s).ending.Incomplete? ==>
              SplitOf(s + t).packets == SplitOf(s).packets && SplitOf(s + t).ending == SplitOf(s).ending
    decreases |s|
  {
    var f := FrameOf(s);
    if f.Complete? {
      FrameExtends(s, t);
      var n := f.n;
      assert (s + t)[n..] == s[n..] + t && (s + t)[..n] == s[..n];
      SplitExtends(s[n..], t);
      var p := SplitOf(s[n..]);
      Assoc([s[..n]], p.packets, SplitOf(p.rest + t).packets);
    } else if f.Incomplete? {
      assert [] + SplitOf(s + t).packets == SplitOf(s + t).packets;
    } else {
      FrameExtends(s, t);
    }
  }

  /** Whole messages put behind one another, and part of another, come apart as they were. */
  lemma {:induction false} SplitOfMessages(messages: seq<seq<Byte>>, tail: seq<Byte>)
    requires forall k :: 0 <= k < |messages| ==> FrameOf(messages[k]) == Complete(|messages[k]|)
    requires FrameOf(tail).Incomplete?
    ensures SplitOf(Concat(messages) + tail) == Split(messages, tail, Incomplete)
  {
    hide FrameOf;
    if messages == [] {
      assert Concat(messages) + tail == tail;
    } else {
      var m, more := messages[0], Concat(messages[1..]) + tail;
      Assoc(m, Concat(messages[1..]), tail);
      SplitOfMessages(messages[1..], tail);
      FrameExtends(m, more);
      assert (m + more)[..|m|] == m && (m + more)[|m|..] == more;
    }
  }

  // ----- Asn_checkPacket ----------------------------------------------------------------

  /** The length octets are at hand. */
  predicate HeaderAtHand(s: seq<Byte>) {
    |s| >= 2 && ToInt(|s|) >= HeaderLength(s) && |s| >= HeaderLength(s)
  }

  /** Asn_checkPacket: `*length` starts with whatever its memory held. */
  function CheckPacket(s: seq<Byte>, uninitialised: ULong): int {
    if |s| < 2 then 0
    else if s[0] != SEQUENCE then -1
    else if s[1] < 128 then HeaderLength(s) + s[1]
    else if !HeaderAtHand(s) then 0
    else ToInt(LengthLeft(s[1..], uninitialised) + HeaderLength(s))
  }

  lemma LengthIsTotal(s: seq<Byte>, uninitialised: ULong)
    requires |s| >= 2 && 128 < s[1] <= 128 + 8 && |s| >= HeaderLength(s)
    ensures LengthLeft(s[1..], uninitialised) + HeaderLength(s) == Total(s)
  {
    assert s[1..][1..1 + (s[1] - 128)] == s[2..HeaderLength(s)];
  }

  /** The length found is the real one exactly when that is below 2^31. */
  lemma CheckPacketExact(s: seq<Byte>, uninitialised: ULong)
    requires 2 <= |s| < TWO_31 && s[0] == SEQUENCE && s[1] != 128 && s[1] <= 128 + 8 && |s| >= HeaderLength(s)
    ensures CheckPacket(s, uninitialised) == Total(s) <==> Total(s) < TWO_31
  {
    hide UVal;
    if s[1] > 128 {
      LengthIsTotal(s, uninitialised);
    }
  }

  /** A header that announces 2^32 octets is taken for a whole message of seven. */
  lemma TruncatedLength(uninitialised: ULong)
    ensures var s: seq<Byte> := [SEQUENCE, 0x85, 1, 0, 0, 0, 0];
            CheckPacket(s, uninitialised) == 7 && Total(s) == TWO_32 + 7
  {
    hide UVal, LengthLeft;
    var s: seq<Byte> := [SEQUENCE, 0x85, 1, 0, 0, 0, 0];
    LengthIsTotal(s, uninitialised);
    OneAndZeros(s[2..7]);
  }

  lemma OneAndZeros(c: seq<Byte>)
    requires |c| == 5 && c[0] == 1 && c[1] == c[2] == c[3] == c[4] == 0
    ensures UVal(c) == TWO_32
  {
    hide UVal, Pow256;
    assert c == [1] + c[1..];
    UValCons(1, c[1..]);
    FourOctets(c[1..]);
    Pow256Values();
  }

  /** Why not longer than LONGEST: with all but the last octet of a longer message saved, a full
      receive buffer completes it, but the count of octets at hand no longer fits an `int`, and
      the message counts as incomplete. */
  lemma TooLongStalls(saved: seq<Byte>, chunk: seq<Byte>, uninitialised: ULong)
    requires 2 <= |saved| && saved[0] == SEQUENCE && saved[1] >= 128 && |saved| >= HeaderLength(saved)
    requires LONGEST < Total(saved) < TWO_31 && |saved| == Total(saved) - 1 && |chunk| == RXBUF_LEN
    ensures CheckPacket(saved + chunk, uninitialised) == 0 && |saved + chunk| > Total(saved + chunk)
  {
    assert (saved + chunk)[2..HeaderLength(saved)] == saved[2..HeaderLength(saved)];
  }

  /** What the check says within the limits. */
  lemma CheckIsFrame(s: seq<Byte>, uninitialised: ULong)
    ensures var r := CheckPacket(s, uninitialised);
            0 < |s| < TWO_31 ==>
              match FrameOf(s)
              case Incomplete => 0 <= r <= MAX_PACKET_LENGTH && (r == 0 || r > |s|)
              case Complete(n) => r == n
              case WrongType => r == -1
              case Unusable => s[1] == 128 || s[1] > 128 + 8 || r == ToInt(Total(s))
  {
    hide UVal, LengthLeft;
    if |s| >= 2 && 128 < s[1] <= 128 + 8 && |s| >= HeaderLength(s) {
      LengthIsTotal(s, uninitialised);
    }
  }

  lemma CheckSteps(s: seq<Byte>, uninitialised: ULong)
    ensures var r := CheckPacket(s, uninitialised);
            && (|s| < 2 ==> r == 0)
            && (|s| >= 2 && s[0] != SEQUENCE ==> r == -1)
            && (|s| >= 2 && s[0] == SEQUENCE && s[1] < 128 ==> r == s[1] + 2)
            && (|s| >= 2 && s[0] == SEQUENCE && s[1] >= 128 ==>
                  r == if ToInt(|s|) < s[1] - 128 + 2 || |s| < s[1] - 128 + 2 then 0
                       else ToInt(LengthLeft(s[1..], uninitialised) + 2 + (s[1] - 128)))
  {
    hide LengthLeft, ToInt;
  }
}
