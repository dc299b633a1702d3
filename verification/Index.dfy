/** Building and parsing index names over a linked list of variables (Mib.c). */
module Index {
  import opened Bytes
  import opened IndexSpec

  class IndexVar {
    const kind: Kind
    var value: Value
    var name: ObjectId
    var next: IndexVar?

    constructor (kind: Kind)
      ensures this.kind == kind && value == Fresh(kind) && next == null
    {
      this.kind, value, name, next := kind, Fresh(kind), [], null;
    }
  }

  /** `vars` are the variables reached from `head`, in list order. */
  ghost predicate IsChain(head: IndexVar?, vars: seq<IndexVar>)
    reads vars`next
  {
    && head == (if vars == [] then null else vars[0])
    && (forall i {:trigger vars[i].next} :: 0 <= i < |vars| ==>
          vars[i].next == if i + 1 < |vars| then vars[i + 1] else null)
    && (forall i, j :: 0 <= i < j < |vars| ==> vars[i] != vars[j])
  }

  ghost function AsList(vars: seq<IndexVar>): (list: seq<IndexSpec.Index>)
    reads vars`value
    ensures |list| == |vars|
    ensures forall i :: 0 <= i < |vars| ==> list[i] == IndexSpec.Index(vars[i].kind, vars[i].value)
  {
    if vars == [] then [] else [IndexSpec.Index(vars[0].kind, vars[0].value)] + AsList(vars[1..])
  }

  /** The copy loops of Mib_buildOidSegment. */
  method CopyOctets(start: ObjectId, s: seq<Byte>) returns (name: ObjectId)
    ensures name == start + Widened(s)
  {
    name := start;
    for i := 0 to |s|
      invariant name == start + Widened(s[..i])
    {
      assert s[..i + 1] == s[..i] + [s[i]];
      name := name + [s[i]];
    }
    assert s[..|s|] == s;
  }

  method CopyName(start: ObjectId, o: ObjectId) returns (name: ObjectId)
    ensures name == start + o
  {
    name := start;
    for i := 0 to |o|
      invariant name == start + o[..i]
    {
      name := name + [o[i]];
    }
  }

  /** Mib_buildOidSegment */
  method BuildOidSegment(v: IndexVar) returns (ok: bool)
    requires WellTyped(v.kind, v.value)
    modifies v`name
    ensures ok <==> Segment(v.kind, v.value).Some?
    ensures ok ==> v.name == Segment(v.kind, v.value).value
  {
    match v.kind {
      case Integer =>
        v.name := [v.value.n % TWO_32];
      case Unsigned =>
        v.name := [v.value.n % TWO_32];
      case IpAddress =>
        var s := Swapped(v.value.s);
        var ipaddr := HostOrder(s); // memcpy of the octets into a number
        HostOrderRoundTrip(s);
        var name := NetworkOrder(ipaddr);
        v.name := Widened(name);
      case ImpliedOid =>
        v.name := CopyName([], v.value.o);
      case Oid =>
        v.name := CopyName([|v.value.o| % TWO_32], v.value.o);
      case ImpliedString =>
        v.name := CopyOctets([], v.value.s);
      case String =>
        v.name := CopyOctets([|v.value.s| % TWO_32], v.value.s);
      case Other =>
        return false;
    }
    ok := |v.name| <= MAX_OID_LEN;
  }

  /** The segments done so far in front of those of the rest. */
  function InFront(done: ObjectId, rest: Option<ObjectId>): Option<ObjectId> {
    match rest
    case None => None
    case Some(t) => Some(done + t)
  }

  /** One segment more; with room for fewer sub-identifiers than it has, there is no room for all. */
  lemma SegmentsStep(list: seq<IndexSpec.Index>, k: nat, done: ObjectId, room: nat)
    requires AllTyped(list) && k < |list|
    ensures AllTyped(list[k..]) && AllTyped(list[k + 1..])
    ensures match Segment(list[k].kind, list[k].value)
            case None => InFront(done, Segments(list[k..])).None?
            case Some(s) =>
              var all := InFront(done, Segments(list[k..]));
              && all == InFront(done + s, Segments(list[k + 1..]))
              && (|s| > room && all.Some? ==> |all.value| > |done| + room)
  {
    hide Segment;
    assert list[k..][1..] == list[k + 1..];
    var s, t := Segment(list[k].kind, list[k].value), Segments(list[k + 1..]);
    if s.Some? && t.Some? {
      Assoc(done, s.value, t.value);
    }
  }

  lemma NextInChain(head: IndexVar?, vars: seq<IndexVar>, k: nat)
    requires IsChain(head, vars) && k < |vars|
    ensures vars[k].next == if k + 1 < |vars| then vars[k + 1] else null
  {
  }

  /** memcpy behind the sub-identifiers already there. */
  method Put(out: array<SubId>, at: nat, s: ObjectId)
    requires at + |s| <= out.Length
    modifies out
    ensures out[..at + |s|] == old(out[..at]) + s
  {
    forall i | 0 <= i < |s| {
      out[at + i] := s[i];
    }
  }

  /** The loop of Mib_buildOidNoalloc over the variables, behind the prefix. */
  method AppendSegments(out: array<SubId>, start: nat, indexes: IndexVar?,
                        ghost vars: seq<IndexVar>, ghost list: seq<IndexSpec.Index>)
    returns (ok: bool, outLen: nat)
    requires start <= out.Length && IsChain(indexes, vars) && list == AsList(vars) && AllTyped(list)
    modifies out, vars`name
    ensures ok <==> Segments(list).Some? && start + |Segments(list).value| <= out.Length
    ensures ok ==> outLen <= out.Length && out[..outLen] == old(out[..start]) + Segments(list).value
  {
    hide Segment, Segments, IsChain, AllTyped, AsList, InFront;
    ghost var done, pre, k := [], out[..start], 0;
    outLen := start;
    var v := indexes;
    ChainStart(indexes, vars, list);
    while v != null
      invariant k <= |vars| && v == if k < |vars| then vars[k] else null
      invariant outLen == start + |done| <= out.Length && out[..outLen] == pre + done
      invariant AllTyped(list[k..]) && Segments(list) == InFront(done, Segments(list[k..]))
      decreases |vars| - k
    {
      SegmentsStep(list, k, done, out.Length - outLen);
      TypedAt(list, k);
      var built := BuildOidSegment(v);
      if !built || |v.name| + outLen > out.Length {
        return false, outLen;
      }
      Put(out, outLen, v.name);
      Assoc(pre, done, v.name);
      outLen := outLen + |v.name|;
      done := done + v.name;
      NextInChain(indexes, vars, k);
      k := k + 1;
      v := v.next;
    }
    NoSegments(list[k..], done);
    return true, outLen;
  }

  /** Mib_buildOidNoalloc, with the capacity counted in sub-identifiers. */
  method BuildOidNoalloc(out: array<SubId>, prefix: Option<ObjectId>, indexes: IndexVar?, ghost vars: seq<IndexVar>)
    returns (ok: bool, outLen: nat)
    requires IsChain(indexes, vars) && AllTyped(AsList(vars))
    modifies out, vars`name
    ensures var pre := if prefix.Some? then prefix.value else [];
            var names := Segments(old(AsList(vars)));
            && (ok <==> names.Some? && |pre| + |names.value| <= out.Length)
            && (ok ==> outLen <= out.Length && out[..outLen] == pre + names.value)
  {
    hide Segments, IsChain, AllTyped, AsList;
    outLen := 0;
    if prefix.Some? {
      if out.Length < |prefix.value| {
        return false, 0;
      }
      Put(out, 0, prefix.value);
      assert old(out[..0]) == [] && [] + prefix.value == prefix.value;
      outLen := |prefix.value|;
    }
    ok, outLen := AppendSegments(out, outLen, indexes, vars, AsList(vars));
  }

  lemma ChainStart(head: IndexVar?, vars: seq<IndexVar>, list: seq<IndexSpec.Index>)
    requires IsChain(head, vars) && AllTyped(list)
    ensures head == if vars == [] then null else vars[0]
    ensures AllTyped(list[0..]) && InFront([], Segments(list[0..])) == Segments(list)
  {
    assert list[0..] == list;
    assert Segments(list).Some? ==> [] + Segments(list).value == Segments(list).value;
  }

  lemma TypedAt(list: seq<IndexSpec.Index>, k: nat)
    requires AllTyped(list) && k < |list|
    ensures WellTyped(list[k].kind, list[k].value)
  {
  }

  lemma NoSegments(list: seq<IndexSpec.Index>, done: ObjectId)
    requires AllTyped(list) && list == []
    ensures InFront(done, Segments(list)) == Some(done)
  {
    assert done + [] == done;
  }

  // ----- parsing ------------------------------------------------------------------------

  /** The copy loop for strings: `taken` of the n octets come from sub-identifiers. */
  method TakeOctets(n: nat, left: ObjectId) returns (s: seq<Byte>)
    ensures s == Narrowed(if n > |left| then left + Zeros(n - |left|) else left[..n])
  {
    s := [];
    var m := if n > |left| then |left| else n;
    for i := 0 to m
      invariant s == Narrowed(left[..i])
    {
      s := s + [left[i] % 256];
    }
    for i := m to n
      invariant s == Narrowed(left[..m] + Zeros(i - m))
    {
      s := s + [0];
    }
    assert left[..m] + Zeros(0) == left[..m];
    assert m == |left| ==> left[..m] == left;
  }

  /** The address loop: the number is put together with shifts, and htonl puts it in order. */
  method TakeAddress(ids: ObjectId) returns (r: Option<seq<Byte>>)
    ensures r == AddressOf(ids)
  {
    hide HostOrder, NetworkOrder;
    var n := if |ids| < 4 then |ids| else 4;
    var uitmp: nat, i := 0, 0;
    NoOctets(ids);
    while i < n
      invariant 0 <= i <= n && forall j :: 0 <= j < i ==> ids[j] < 256
      invariant uitmp == HostOrder(FirstOctets(ids, i))
    {
      if ids[i] > 255 {
        return None;
      }
      OneMoreOctet(ids, i);
      uitmp := uitmp + ids[i] * [TWO_24, 0x1_0000, 0x100, 1][i];
      i := i + 1;
    }
    HostOrderRoundTrip(FirstOctets(ids, n));
    r := Some(NetworkOrder(uitmp));
  }

  lemma NoOctets(ids: ObjectId)
    ensures HostOrder(FirstOctets(ids, 0)) == 0
  {
  }

  lemma OneMoreOctet(ids: ObjectId, i: nat)
    requires i < |ids| && i < 4 && ids[i] < 256
    ensures HostOrder(FirstOctets(ids, i + 1))
            == HostOrder(FirstOctets(ids, i)) + ids[i] * [TWO_24, 0x1_0000, 0x100, 1][i]
  {
    var s, t := FirstOctets(ids, i), FirstOctets(ids, i + 1);
    assert t == s[i := ids[i]] && s[i] == 0;
  }

  /** Mib_parseOneOidIndex: the sub-identifiers left, None on error. */
  method ParseOneOidIndex(v: IndexVar, oidIndex: ObjectId, complete: bool) returns (r: Option<ObjectId>)
    requires WellTyped(v.kind, v.value)
    modifies v`value
    ensures match ParseOne(v.kind, old(v.value), oidIndex, complete)
            case None => r.None?
            case Some(p) => r == Some(p.1) && v.value == p.0
  {
    if (oidIndex == [] && !complete) || v.kind == Other {
      return None;
    }
    if v.kind == Integer || v.kind == Unsigned {
      if oidIndex == [] {
        v.value := Number(0);
        return Some([]);
      }
      v.value := Number(FromSubId(v.kind, oidIndex[0]));
      return Some(oidIndex[1..]);
    }
    if v.kind == IpAddress {
      if |oidIndex| < 4 && !complete {
        return None;
      }
      var address := TakeAddress(oidIndex);
      if address.None? {
        return None;
      }
      v.value := Octets(address.value);
      return Some(if |oidIndex| < 4 then [] else oidIndex[4..]);
    }
    var c := Count(v.kind, v.value, oidIndex);
    var n, left := c.0, oidIndex[c.1..];
    if !Implied(v.kind) && n > |left| && !complete {
      return None;
    }
    if StringLike(v.kind) {
      if n == 0 {
        return Some(left);
      }
      if n > MAX_OID_LEN {
        return None;
      }
      var s := TakeOctets(n, left);
      v.value := Octets(s);
    } else {
      if n > MAX_OID_LEN {
        return None;
      }
      v.value := Name(if n > |left| then left + Zeros(n - |left|) else left[..n]);
    }
    return Some(if n > |left| then [] else left[n..]);
  }

  /** Mib_parseOidIndexes */
  method ParseOidIndexes(oidIndex: ObjectId, data: IndexVar?, ghost vars: seq<IndexVar>) returns (ok: bool)
    requires IsChain(data, vars) && AllTyped(AsList(vars))
    modifies vars`value
    ensures ok <==> ParseAll(old(AsList(vars)), oidIndex).Some?
    ensures ok ==> Values(AsList(vars)) == ParseAll(old(AsList(vars)), oidIndex).value
  {
    hide ParseOne, ParseAll, IsChain, AllTyped, AsList, Values, Behind, WellTyped;
    var v, ids := data, oidIndex;
    ghost var list, k, done := AsList(vars), 0, [];
    ghost var want := ParseAll(list, oidIndex);
    ChainStart(data, vars, list);
    ParseStart(list, oidIndex);
    while v != null && |ids| > 0
      invariant k <= |vars| && v == if k < |vars| then vars[k] else null
      invariant AllTyped(list) && AllTyped(list[k..]) && |done| == k
      invariant want == Behind(done, ParseAll(list[k..], ids))
      invariant forall i :: 0 <= i < k ==> vars[i].value == done[i]
      invariant forall i :: k <= i < |vars| ==> vars[i].value == list[i].value
      decreases |vars| - k
    {
      ParseStep(list, k, ids, done);
      TypedAt(list, k);
      var rest := ParseOneOidIndex(v, ids, false);
      if rest.None? {
        return false;
      }
      ChainDistinct(data, vars, k);
      done := done + [v.value];
      NextInChain(data, vars, k);
      ids := rest.value;
      k := k + 1;
      v := v.next;
    }
    ParseEnd(list[k..], ids, done);
    AsListSays(vars, done);
    if v != null || |ids| != 0 {
      return false;
    }
    return true;
  }

  function Behind(done: seq<Value>, rest: Option<seq<Value>>): Option<seq<Value>> {
    match rest
    case None => None
    case Some(t) => Some(done + t)
  }

  lemma ParseStart(list: seq<IndexSpec.Index>, ids: ObjectId)
    requires AllTyped(list)
    ensures AllTyped(list[0..]) && Behind([], ParseAll(list[0..], ids)) == ParseAll(list, ids)
  {
    hide ParseAll;
    assert list[0..] == list;
    assert ParseAll(list, ids).Some? ==> [] + ParseAll(list, ids).value == ParseAll(list, ids).value;
  }

  lemma ParseStep(list: seq<IndexSpec.Index>, k: nat, ids: ObjectId, done: seq<Value>)
    requires AllTyped(list) && k < |list| && ids != []
    ensures AllTyped(list[k..]) && AllTyped(list[k + 1..])
    ensures Behind(done, ParseAll(list[k..], ids)) ==
            match ParseOne(list[k].kind, list[k].value, ids, false)
            case None => None
            case Some(p) => Behind(done + [p.0], ParseAll(list[k + 1..], p.1))
  {
    hide ParseOne;
    assert list[k..][1..] == list[k + 1..];
    var p := ParseOne(list[k].kind, list[k].value, ids, false);
    if p.Some? && ParseAll(list[k + 1..], p.value.1).Some? {
      Assoc(done, [p.value.0], ParseAll(list[k + 1..], p.value.1).value);
    }
  }

  lemma ParseEnd(list: seq<IndexSpec.Index>, ids: ObjectId, done: seq<Value>)
    requires AllTyped(list) && (list == [] || ids == [])
    ensures Behind(done, ParseAll(list, ids)) == if list == [] && ids == [] then Some(done) else None
  {
    assert done + [] == done;
  }

  lemma AsListSays(vars: seq<IndexVar>, done: seq<Value>)
    requires |done| <= |vars| && forall i :: 0 <= i < |done| ==> vars[i].value == done[i]
    ensures |done| == |vars| ==> Values(AsList(vars)) == done
  {
  }

  lemma ChainDistinct(head: IndexVar?, vars: seq<IndexVar>, k: nat)
    requires IsChain(head, vars) && k < |vars|
    ensures forall i :: 0 <= i < |vars| && i != k ==> vars[i] != vars[k]
  {
  }
}
