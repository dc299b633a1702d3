/** The stream part of Api_sessRead3: a session's saved octets are extended by what was received,
    whole packets are taken off the front, and the rest is moved to the start of the buffer. */
module Stream {
  import opened Bytes
  import opened Parsers
  import opened ParseSpec
  import opened Tags
  import opened Framing

  /** Asn_checkPacket. With fewer than 2^31 octets at hand, the answer is the length of the message
      they begin with when it is complete, 0 or a length beyond them when it is not, and negative
      when they begin with something else. A length that is too large comes out cut to an `int`;
      only after a number of length octets that is refused is it what the memory held. */
  method AsnCheckPacket(packet: seq<Byte>, uninitialised: ULong) returns (r: int)
    ensures 0 < |packet| < TWO_31 ==>
              match FrameOf(packet)
              case Incomplete => 0 <= r <= MAX_PACKET_LENGTH && (r == 0 || r > |packet|)
              case Complete(n) => r == n
              case WrongType => r == -1
              case Unusable => packet[1] == 128 || packet[1] > 128 + 8 || r == ToInt(Total(packet))
    ensures r == CheckPacket(packet, uninitialised)
  {
    hide FrameOf, UVal, LengthLeft, CheckPacket, ToInt;
    CheckIsFrame(packet, uninitialised);
    CheckSteps(packet, uninitialised);
    var length := |packet|;
    if length < 2 {
      return 0;
    }
    if packet[0] != SEQUENCE {
      return -1;
    }
    if packet[1] >= 0x80 {
      if ToInt(length) < packet[1] - 0x80 + 2 || length < packet[1] - 0x80 + 2 {
        return 0;
      }
      var _, asnLength := ReadLength(packet[1..], uninitialised);
      var total: int := asnLength;
      return ToInt(total + 2 + (packet[1] - 0x80));
    }
    return packet[1] + 2;
  }

  class Session {
    var packet: array?<Byte>
    var packetSize: nat
    var packetLen: nat
    var closed: bool

    /** While the session is open, the saved octets fit the buffer, and what is free of it is at most
        one receive. */
    ghost predicate Valid()
      reads this, packet
    {
      packet != null && !closed ==> packet.Length == packetSize && packetLen <= packetSize <= packetLen + RXBUF_LEN
    }

    ghost function Saved(): seq<Byte>
      reads this, packet
      requires Valid() && !closed
    {
      if packet == null then [] else packet[..packetLen]
    }

    constructor ()
      ensures Valid() && !closed && Saved() == []
    {
      packet, packetSize, packetLen, closed := null, 0, 0, false;
    }

    /** Where to receive to: a new buffer, an extended one, or the room left. */
    method MakeRoom() returns (rxbufLen: nat)
      requires Valid() && !closed
      modifies this
      ensures Valid() && packet != null && (packet == old(packet) || fresh(packet))
      ensures rxbufLen == RXBUF_LEN == packetSize - packetLen
      ensures !closed && Saved() == old(Saved())
    {
      if packet == null {
        packet := new Byte[RXBUF_LEN];
        packetSize, packetLen := RXBUF_LEN, 0;
        return RXBUF_LEN;
      }
      if packetSize < packetLen + RXBUF_LEN {
        var newbuf := new Byte[packetLen + RXBUF_LEN];
        forall k | 0 <= k < packetLen {
          newbuf[k] := packet[k];
        }
        packet, packetSize := newbuf, packetLen + RXBUF_LEN;
        return RXBUF_LEN;
      }
      return packetSize - packetLen;
    }

    /** What Transport_recv did: the octets behind the saved ones. */
    method Fill(chunk: seq<Byte>)
      requires Valid() && !closed && packet != null && packetLen + |chunk| <= packetSize
      modifies this`packetLen, packet
      ensures Valid() && Saved() == old(Saved()) + chunk
    {
      forall k | 0 <= k < |chunk| {
        packet[packetLen + k] := chunk[k];
      }
      packetLen := packetLen + |chunk|;
    }

    /** memmove of what is left to the start of the buffer, and realloc down to its size. */
    method Compact(pptr: nat)
      requires !closed && packet != null && packet.Length == packetSize && pptr + packetLen <= packetSize
      modifies this`packet, this`packetSize, packet
      ensures Valid() && packet != null && fresh(packet)
      ensures Saved() == old(packet[pptr..pptr + packetLen])
    {
      MoveDown(packet, pptr, packetLen);
      var rxbuf := new Byte[packetLen];
      forall j | 0 <= j < packetLen {
        rxbuf[j] := packet[j];
      }
      packet, packetSize := rxbuf, packetLen;
    }

    /** The loop over the messages at hand. `pptr` is where the octets that remain begin; `broken`
        when the connection has to go. */
    method TakePackets(uninitialised: ULong) returns (delivered: seq<seq<Byte>>, pptr: nat, broken: bool)
      requires Valid() && !closed && packet != null
      modifies this`packetLen
      ensures pptr + packetLen == old(packetLen)
      ensures old(packetLen) < TWO_31 ==>
                Outcome(old(Saved()), delivered, packet[pptr..pptr + packetLen], broken)
    {
      hide FrameOf, SplitOf, Outcome, InSync, Judged;
      delivered, pptr := [], 0;
      ghost var all, sync := Saved(), true;
      AtStart(all);
      while packetLen > 0
        invariant pptr + packetLen == |all| == old(packetLen) && InSync(all, delivered, all[pptr..], sync)
      {
        ghost var rest := all[pptr..];
        var atHand := packet[pptr..pptr + packetLen];
        assert atHand == rest;
        var verdict, pdulen := Judge(atHand, uninitialised);
        if verdict != Take {
          SplitEnds(all, delivered, rest, sync, verdict, pdulen);
          return delivered, pptr, verdict == Drop;
        }
        Taken(all, delivered, rest, sync, pdulen);
        sync := sync && FrameOf(rest) == Complete(pdulen);
        assert rest[pdulen..] == all[pptr + pdulen..];
        delivered := delivered + [atHand[..pdulen]];
        pptr := pptr + pdulen;
        packetLen := packetLen - pdulen;
      }
      EmptyIsIncomplete(all[pptr..]);
      assert packet[pptr..pptr + packetLen] == all[pptr..];
      SplitEnds(all, delivered, all[pptr..], sync, Wait, 0);
      return delivered, pptr, false;
    }

    /** What becomes of the octets that remain. */
    method Keep(pptr: nat, broken: bool)
      requires !closed && packet != null && packet.Length == packetSize && pptr + packetLen <= packetSize
      requires pptr == 0 ==> packetSize <= packetLen + RXBUF_LEN
      modifies this, packet
      ensures Valid() && (packet != old(packet) && packet != null ==> fresh(packet))
      ensures broken ==> closed
      ensures !broken && old(packetLen) < MAX_PACKET_LENGTH ==>
                !closed && Saved() == old(packet[pptr..pptr + packetLen])
    {
      if broken {
        closed := true;
      } else if packetLen > 0 && pptr == 0 {
        return;
      } else if packetLen >= MAX_PACKET_LENGTH {
        closed := true;
      } else if packetLen == 0 {
        packet, packetSize := null, 0;
      } else {
        Compact(pptr);
      }
    }

    /** One call of Api_sessRead3 in which Transport_recv gave `chunk`; none means the peer is gone. */
    method Read(chunk: seq<Byte>, uninitialised: ULong) returns (delivered: seq<seq<Byte>>)
      requires Valid() && !closed && |chunk| <= RXBUF_LEN
      modifies this, packet
      ensures Valid() && (packet != old(packet) && packet != null ==> fresh(packet))
      ensures chunk == [] ==> closed && delivered == []
      ensures chunk != [] && |old(Saved()) + chunk| < TWO_31 ==>
                var p := SplitOf(old(Saved()) + chunk);
                && (p.ending.Incomplete? ==> !closed && delivered == p.packets && Saved() == p.rest)
                && (p.ending.WrongType? ==> closed && delivered == p.packets)
    {
      hide FrameOf, SplitOf, Outcome;
      var rxbufLen := MakeRoom();
      if |chunk| == 0 {
        packet, closed := null, true;
        return [];
      }
      Fill(chunk);
      ghost var all := Saved();
      var pptr, broken;
      delivered, pptr, broken := TakePackets(uninitialised);
      if |all| < TWO_31 {
        OutcomeSays(all, delivered, packet[pptr..pptr + packetLen], broken);
      }
      Keep(pptr, broken);
    }
  }

  /** memmove to the start of the array. */
  method MoveDown(a: array<Byte>, from: nat, n: nat)
    requires from + n <= a.Length
    modifies a
    ensures a[..n] == old(a[from..from + n])
  {
    var k := 0;
    while k < n
      invariant 0 <= k <= n
      invariant forall j :: 0 <= j < k ==> a[j] == old(a[from + j])
      invariant forall j :: from + k <= j < from + n ==> a[j] == old(a[j])
    {
      a[k] := a[from + k];
      k := k + 1;
    }
  }

  datatype Verdict = Drop | Wait | Take

  /** What the decision has to be, for fewer than 2^31 octets at hand. */
  ghost predicate Judged(s: seq<Byte>, v: Verdict, pdulen: nat) {
    match FrameOf(s)
    case Incomplete => v == Wait
    case Complete(n) => v == Take && pdulen == n
    case WrongType => v == Drop
    case Unusable => true
  }

  /** The decision on the octets at hand. */
  method Judge(s: seq<Byte>, uninitialised: ULong) returns (v: Verdict, pdulen: nat)
    requires s != []
    ensures v.Take? ==> 0 < pdulen <= |s|
    ensures |s| < TWO_31 ==> Judged(s, v, pdulen)
  {
    hide FrameOf, CheckPacket;
    var r := AsnCheckPacket(s, uninitialised);
    pdulen := ToSize(r);
    if pdulen > MAX_PACKET_LENGTH {
      return Drop, pdulen;
    }
    if pdulen > |s| || pdulen == 0 {
      return Wait, pdulen;
    }
    return Take, pdulen;
  }

  /** What a reader owes for the octets s: the messages that they consist of, and the rest. A
      stream that goes on with another type breaks it; for one that goes on with an unusable
      length nothing is owed. */
  ghost predicate Outcome(s: seq<Byte>, delivered: seq<seq<Byte>>, rest: seq<Byte>, broken: bool) {
    var p := SplitOf(s);
    && (p.ending.Incomplete? ==> !broken && delivered == p.packets && rest == p.rest)
    && (p.ending.WrongType? ==> broken && delivered == p.packets)
  }

  /** The packets taken so far in front of what the rest splits into are what the whole splits into.
      Once a wrong length was believed (`sync` is false), the stream was an unusable one. */
  ghost predicate InSync(all: seq<Byte>, delivered: seq<seq<Byte>>, rest: seq<Byte>, sync: bool) {
    if sync then Behind(delivered, SplitOf(rest)) == SplitOf(all) else |all| < TWO_31 ==> SplitOf(all).ending.Unusable?
  }

  lemma SplitEnds(all: seq<Byte>, delivered: seq<seq<Byte>>, rest: seq<Byte>, sync: bool, v: Verdict, pdulen: nat)
    requires InSync(all, delivered, rest, sync) && (|all| < TWO_31 ==> Judged(rest, v, pdulen)) && v != Take
    ensures |all| < TWO_31 ==> Outcome(all, delivered, rest, v == Drop)
  {
    hide FrameOf;
    assert delivered + [] == delivered;
  }

  lemma OutcomeSays(s: seq<Byte>, delivered: seq<seq<Byte>>, rest: seq<Byte>, broken: bool)
    requires Outcome(s, delivered, rest, broken)
    ensures var p := SplitOf(s);
            && (p.ending.Incomplete? ==> !broken && delivered == p.packets && rest == p.rest && |rest| < MAX_PACKET_LENGTH)
            && (p.ending.WrongType? ==> broken && delivered == p.packets)
  {
  }

  lemma AtStart(all: seq<Byte>)
    ensures InSync(all, [], all[0..], true)
  {
    hide SplitOf;
    assert all[0..] == all && [] + SplitOf(all).packets == SplitOf(all).packets;
  }

  lemma EmptyIsIncomplete(s: seq<Byte>)
    requires s == []
    ensures Judged(s, Wait, 0)
  {
  }

  /** Taking one message off the front. */
  lemma Taken(all: seq<Byte>, delivered: seq<seq<Byte>>, s: seq<Byte>, sync: bool, n: nat)
    requires n <= |s| && InSync(all, delivered, s, sync) && (|all| < TWO_31 ==> Judged(s, Take, n))
    ensures InSync(all, delivered + [s[..n]], s[n..], sync && FrameOf(s) == Complete(n))
  {
    hide FrameOf, SplitOf;
    SplitUnfolds(s);
    if FrameOf(s) == Complete(n) {
      Assoc(delivered, [s[..n]], SplitOf(s[n..]).packets);
    }
  }

  // ----- whole runs ---------------------------------------------------------------------

  lemma {:induction false} ConcatSplit(chunks: seq<seq<Byte>>, i: nat)
    requires i <= |chunks|
    ensures Concat(chunks) == Concat(chunks[..i]) + Concat(chunks[i..])
    decreases i
  {
    if i == 0 {
      assert chunks[..0] == [] && chunks[0..] == chunks;
    } else {
      ConcatSplit(chunks[1..], i - 1);
      assert chunks[1..][..i - 1] == chunks[..i][1..] && chunks[1..][i - 1..] == chunks[i..];
      Assoc(chunks[0], Concat(chunks[..i][1..]), Concat(chunks[i..]));
    }
  }

  lemma ConcatNext(chunks: seq<seq<Byte>>, i: nat)
    requires i < |chunks|
    ensures Concat(chunks[..i + 1]) == Concat(chunks[..i]) + chunks[i]
  {
    var c := chunks[..i + 1];
    ConcatSplit(c, i);
    assert c[..i] == chunks[..i] && c[i..] == [chunks[i]];
    var last: seq<seq<Byte>> := [chunks[i]];
    assert last[1..] == [] && chunks[i] + [] == chunks[i];
  }

  /** What has arrived of a stream that never breaks does not break either. */
  lemma NeverBroken(chunks: seq<seq<Byte>>, i: nat)
    requires i <= |chunks| && SplitOf(Concat(chunks)).ending.Incomplete?
    ensures SplitOf(Concat(chunks[..i])).ending.Incomplete?
  {
    hide SplitOf;
    ConcatSplit(chunks, i);
    SplitExtends(Concat(chunks[..i]), Concat(chunks[i..]));
  }

  lemma NextChunk(chunks: seq<seq<Byte>>, i: nat)
    requires i < |chunks| && SplitOf(Concat(chunks)).ending.Incomplete? && |chunks[i]| <= RXBUF_LEN
    ensures var p := SplitOf(Concat(chunks[..i]));
            && SplitOf(Concat(chunks[..i + 1])) == Behind(p.packets, SplitOf(p.rest + chunks[i]))
            && SplitOf(p.rest + chunks[i]).ending.Incomplete?
            && |p.rest + chunks[i]| < TWO_31
  {
    hide SplitOf;
    NeverBroken(chunks, i);
    NeverBroken(chunks, i + 1);
    ConcatNext(chunks, i);
    SplitExtends(Concat(chunks[..i]), chunks[i]);
    EndsShort(Concat(chunks[..i]));
  }

  lemma EndsShort(s: seq<Byte>)
    ensures SplitOf(s).ending.Incomplete? ==> |SplitOf(s).rest| < LONGEST
  {
  }

  /** A stream of usable messages, received in any non-empty chunks: what has been delivered and
      what is saved depend on the octets received alone. */
  method Receive(s: Session, chunks: seq<seq<Byte>>, uninitialised: ULong) returns (delivered: seq<seq<Byte>>)
    requires s.Valid() && !s.closed && s.Saved() == []
    requires forall i :: 0 <= i < |chunks| ==> 0 < |chunks[i]| <= RXBUF_LEN
    requires SplitOf(Concat(chunks)).ending.Incomplete?
    modifies s, s.packet
    ensures s.Valid() && !s.closed
    ensures delivered == SplitOf(Concat(chunks)).packets && s.Saved() == SplitOf(Concat(chunks)).rest
    ensures Concat(delivered) + s.Saved() == Concat(chunks)
  {
    hide SplitOf, FrameOf, Concat;
    delivered := [];
    var i := 0;
    NothingReceived(chunks);
    while i < |chunks|
      invariant 0 <= i <= |chunks| && s.Valid() && !s.closed
      invariant s.packet == old(s.packet) || s.packet == null || fresh(s.packet)
      invariant delivered == SplitOf(Concat(chunks[..i])).packets && s.Saved() == SplitOf(Concat(chunks[..i])).rest
    {
      NextChunk(chunks, i);
      var more := s.Read(chunks[i], uninitialised);
      delivered := delivered + more;
      i := i + 1;
    }
    assert chunks[..i] == chunks;
    SplitConserves(Concat(chunks));
  }

  lemma NothingReceived(chunks: seq<seq<Byte>>)
    ensures SplitOf(Concat(chunks[..0])) == Split([], [], Incomplete)
  {
    assert chunks[..0] == [];
  }
}
