/** The codec and the stream together: what was built, sent in any chunks, comes out and parses back. */
module Delivery {
  import opened Bytes
  import opened Ber
  import opened Tags
  import opened PduSpec
  import opened PduRoundTrip
  import opened ScopedPdu
  import opened Framing
  import opened VarList
  import PduParser
  import Stream

  lemma LongHeader(s: seq<Byte>, h: nat, n: nat)
    requires |s| == h + n && 3 <= h <= 10 && s[0] == SEQUENCE && s[1] == 126 + h && UVal(s[2..h]) == n && h + n <= LONGEST
    ensures FrameOf(s) == Complete(h + n)
  {
    hide UVal;
  }

  lemma LongShape(b: seq<Byte>, c: seq<Byte>)
    requires 1 <= |b| <= 8
    ensures var s := [SEQUENCE] + ([128 + |b|] + b) + c;
            |s| == 2 + |b| + |c| && s[0] == SEQUENCE && s[1] == 128 + |b| && s[2..2 + |b|] == b
  {
    var t := [SEQUENCE, 128 + |b|];
    assert [SEQUENCE] + ([128 + |b|] + b) == t + b;
    CutOut(t, b, c);
  }

  lemma CutOut(t: seq<Byte>, b: seq<Byte>, c: seq<Byte>)
    ensures ((t + b) + c)[|t|..|t| + |b|] == b
  {
  }

  /** A header whose long-form length is that of the content makes one whole message. */
  lemma LongFrame(b: seq<Byte>, c: seq<Byte>)
    requires 1 <= |b| <= 8 && UVal(b) == |c| && 2 + |b| + |c| <= LONGEST
    ensures FrameOf([SEQUENCE] + ([128 + |b|] + b) + c) == Complete(2 + |b| + |c|)
  {
    hide UVal, FrameOf;
    LongShape(b, c);
    LongHeader([SEQUENCE] + ([128 + |b|] + b) + c, 2 + |b|, |c|);
  }

  lemma TwoOctets(hi: Byte, lo: Byte)
    ensures UVal([hi, lo]) == hi * 256 + lo
  {
    UValAppend([], hi);
    UValAppend([hi], lo);
    assert [] + [hi] == [hi] && [hi] + [lo] == [hi, lo];
  }

  lemma LengthOctets(n: nat)
    requires 128 <= n < TWO_32
    ensures var b := Base256(n); EncLength(n) == [128 + |b|] + b && 1 <= |b| <= 4 && UVal(b) == n
  {
    Pow256Values();
    Base256Length(n, 4);
    Base256Value(n);
  }

  lemma ShortFrame(c: seq<Byte>)
    requires |c| < 128
    ensures FrameOf([SEQUENCE] + [|c|] + c) == Complete(2 + |c|)
  {
  }

  /** A built sequence short enough for the stream is one whole message there. */
  lemma MessageIsFrame(style: Style, c: seq<Byte>)
    requires |c| <= Capacity(style) && |Wrap(style, SEQUENCE, c)| <= LONGEST
    ensures FrameOf(Wrap(style, SEQUENCE, c)) == Complete(|Wrap(style, SEQUENCE, c)|)
  {
    hide Base256, UVal, FrameOf;
    var n := |c|;
    if style == FourByte {
      var hi, lo := n / 256 % 256, n % 256;
      TwoOctets(hi, lo);
      LongFrame([hi, lo], c);
      assert [SEQUENCE] + ([130] + [hi, lo]) == [SEQUENCE, 130, hi, lo];
    } else if n >= 128 {
      LengthOctets(n);
      LongFrame(Base256(n), c);
    } else {
      ShortFrame(c);
    }
  }

  predicate Sendable(style: Style, s: Scoped, engineCapacity: nat) {
    && PduSurvives(s.pdu) && PduBuildable(s.pdu)
    && |s.engineID| <= engineCapacity && |s.name| <= API_MAX_CONTEXT_SIZE
    && |ScopedContent(style, s)| <= Capacity(style) && |EncScoped(style, s)| <= LONGEST
  }

  predicate AllSendable(style: Style, sent: seq<Scoped>, engineCapacity: nat) {
    forall k :: 0 <= k < |sent| ==> Sendable(style, sent[k], engineCapacity)
  }

  function Encodings(style: Style, sent: seq<Scoped>, engineCapacity: nat): (e: seq<seq<Byte>>)
    requires AllSendable(style, sent, engineCapacity)
    ensures |e| == |sent| && forall k :: 0 <= k < |sent| ==> e[k] == EncScoped(style, sent[k])
  {
    seq(|sent|, k requires 0 <= k < |sent| => EncScoped(style, sent[k]))
  }

  lemma OneArrives(style: Style, s: Scoped, engineCapacity: nat)
    requires Sendable(style, s, engineCapacity)
    ensures FrameOf(EncScoped(style, s)) == Complete(|EncScoped(style, s)|)
    ensures ParseScoped(EncScoped(style, s), |EncScoped(style, s)|, engineCapacity) == Some(s)
  {
    hide PduSurvives, PduBuildable, ScopedContent, ParseScoped, FrameOf;
    MessageIsFrame(style, ScopedContent(style, s));
    ScopedComesBack(style, s, [], |EncScoped(style, s)|, engineCapacity);
    assert EncScoped(style, s) + [] == EncScoped(style, s);
  }

  /** Scoped PDUs built, put on a stream one behind the other and received in any chunks are taken
      off it one by one and parse back to what was sent. */
  lemma AllArrive(style: Style, sent: seq<Scoped>, chunks: seq<seq<Byte>>, engineCapacity: nat)
    requires AllSendable(style, sent, engineCapacity)
    requires Concat(chunks) == Concat(Encodings(style, sent, engineCapacity))
    ensures var p := SplitOf(Concat(chunks));
            && p.rest == [] && |p.packets| == |sent|
            && forall k :: 0 <= k < |sent| ==>
                 ParseScoped(p.packets[k], |p.packets[k]|, engineCapacity) == Some(sent[k])
  {
    hide EncScoped, ParseScoped, FrameOf, SplitOf, Concat;
    var messages := Encodings(style, sent, engineCapacity);
    forall k | 0 <= k < |sent|
      ensures FrameOf(messages[k]) == Complete(|messages[k]|)
      ensures ParseScoped(messages[k], |messages[k]|, engineCapacity) == Some(sent[k])
    {
      OneArrives(style, sent[k], engineCapacity);
    }
    EmptyFrame();
    SplitOfMessages(messages, []);
    assert Concat(messages) + [] == Concat(messages);
  }

  lemma EmptyFrame()
    ensures FrameOf([]) == Incomplete
  {
  }

  /** What a parsed record and its list say. */
  ghost predicate Says(pdu: PduRecord, nodes: seq<VarNode>, m: Scoped)
    reads pdu, nodes
  {
    IsList(pdu.variables, nodes) && m == Scoped(pdu.contextEngineID, pdu.contextName, pdu.AsPdu(nodes))
  }

  /** The octets of messages sent arrive in any chunks at a session with nothing saved: it delivers as
      many messages, every one parses to the one sent, and nothing is left over. */
  method DeliverAll(s: Stream.Session, chunks: seq<seq<Byte>>, engineCapacity: nat, uninitialised: ULong,
                    ghost style: Style, ghost sent: seq<Scoped>)
    returns (ok: bool, received: seq<PduRecord>, ghost lists: seq<seq<VarNode>>)
    requires AllSendable(style, sent, engineCapacity)
    requires Concat(chunks) == Concat(Encodings(style, sent, engineCapacity))
    requires s.Valid() && !s.closed && s.Saved() == []
    requires forall i :: 0 <= i < |chunks| ==> 0 < |chunks[i]| <= RXBUF_LEN
    modifies s, s.packet
    ensures s.Valid() && !s.closed && s.Saved() == []
    ensures ok && |received| == |lists| == |sent|
    ensures forall k :: 0 <= k < |sent| ==> Says(received[k], lists[k], sent[k])
  {
    hide AllSendable, Encodings, ParseScoped, FrameOf, SplitOf, Concat;
    AllArrive(style, sent, chunks, engineCapacity);
    StreamEnds(Concat(chunks));
    var delivered := Stream.Receive(s, chunks, uninitialised);
    ok, received, lists := ParseEach(delivered, engineCapacity, sent);
  }

  lemma StreamEnds(s: seq<Byte>)
    ensures SplitOf(s).rest == [] ==> SplitOf(s).ending.Incomplete?
  {
  }

  method ParseEach(packets: seq<seq<Byte>>, engineCapacity: nat, ghost sent: seq<Scoped>)
    returns (ok: bool, received: seq<PduRecord>, ghost lists: seq<seq<VarNode>>)
    requires |packets| == |sent|
    requires forall k :: 0 <= k < |sent| ==> ParseScoped(packets[k], |packets[k]|, engineCapacity) == Some(sent[k])
    ensures ok && |received| == |lists| == |sent|
    ensures forall k :: 0 <= k < |sent| ==> Says(received[k], lists[k], sent[k])
  {
    hide ParseScoped, IsList;
    ok, received, lists := true, [], [];
    for i := 0 to |packets|
      invariant ok && |received| == |lists| == i
      invariant forall k :: 0 <= k < i ==> Says(received[k], lists[k], sent[k])
    {
      var pdu := new PduRecord(0);
      ghost var nodes;
      ok, nodes := PduParser.ReceiveScoped(pdu, packets[i], |packets[i]|, engineCapacity);
      received, lists := received + [pdu], lists + [nodes];
    }
  }
}
