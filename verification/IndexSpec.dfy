/** Table indexes as sub-identifiers (section 7.7 of RFC 2578): what Mib_buildOidSegment and
    Mib_parseOneOidIndex compute for one index, and the lists of them. */
module IndexSpec {
  import opened Bytes

  const MAX_OID_LEN := 128 // TYPES_MAX_OID_LEN

  /** The types an index variable can have: asnINTEGER; asnCOUNTER, asnGAUGE and asnTIMETICKS;
      asnIPADDRESS; asnOCTET_STR and asnOPAQUE; asnOBJECT_ID; and the IMPLIED ones. */
  datatype Kind = Integer | Unsigned | IpAddress | String | Oid | ImpliedString | ImpliedOid | Other

  datatype Value = Number(n: Long) | Octets(s: seq<Byte>) | Name(o: ObjectId)

  predicate WellTyped(k: Kind, v: Value) {
    match k
    case Integer => v.Number?
    case Unsigned => v.Number?
    case IpAddress => v.Octets? && |v.s| == 4
    case String => v.Octets?
    case ImpliedString => v.Octets?
    case Oid => v.Name?
    case ImpliedOid => v.Name?
    case Other => true
  }

  /** A value before anything was put into it. */
  function Fresh(k: Kind): (v: Value)
    ensures WellTyped(k, v)
  {
    match k
    case Integer => Number(0)
    case Unsigned => Number(0)
    case IpAddress => Octets([0, 0, 0, 0])
    case String => Octets([])
    case ImpliedString => Octets([])
    case Oid => Name([])
    case ImpliedOid => Name([])
    case Other => Number(0)
  }

  /** `valueLength`, in octets. */
  function ValueLength(v: Value): nat {
    match v
    case Number(_) => 8
    case Octets(s) => |s|
    case Name(o) => 4 * |o|
  }

  function Widened(s: seq<Byte>): (o: ObjectId)
    ensures |o| == |s|
  {
    seq(|s|, i requires 0 <= i < |s| => s[i] as SubId)
  }

  /** `( u_char )*oidIndex` for each sub-identifier */
  function Narrowed(o: ObjectId): (s: seq<Byte>)
    ensures |s| == |o|
  {
    seq(|o|, i requires 0 <= i < |o| => o[i] % 256)
  }

  /** Four octets in the other order: as a number of a little-endian host has them. */
  function Swapped(s: seq<Byte>): (t: seq<Byte>)
    requires |s| == 4
    ensures |t| == 4
  {
    [s[3], s[2], s[1], s[0]]
  }

  /** What is copied to var->name, before the check of its length. */
  function Raw(k: Kind, v: Value): Option<ObjectId>
    requires WellTyped(k, v)
  {
    match k
    case Integer => Some([v.n % TWO_32])
    case Unsigned => Some([v.n % TWO_32])
    case IpAddress => Some(Widened(Swapped(v.s)))
    case String => Some([|v.s| % TWO_32] + Widened(v.s))
    case Oid => Some([|v.o| % TWO_32] + v.o)
    case ImpliedString => Some(Widened(v.s))
    case ImpliedOid => Some(v.o)
    case Other => None
  }

  /** Mib_buildOidSegment */
  function Segment(k: Kind, v: Value): (s: Option<ObjectId>)
    requires WellTyped(k, v)
    ensures s.Some? ==> |s.value| <= MAX_OID_LEN
  {
    var raw :- Raw(k, v);
    if |raw| > MAX_OID_LEN then None else Some(raw)
  }

  datatype Index = Index(kind: Kind, value: Value)

  predicate AllTyped(list: seq<Index>) {
    forall i :: 0 <= i < |list| ==> WellTyped(list[i].kind, list[i].value)
  }

  /** The segments of a list of indexes, one behind the other. */
  function Segments(list: seq<Index>): Option<ObjectId>
    requires AllTyped(list)
  {
    if list == [] then Some([])
    else
      var s :- Segment(list[0].kind, list[0].value);
      var t :- Segments(list[1..]);
      Some(s + t)
  }

  // ----- decoding -----------------------------------------------------------------------

  /** `( long )*( int* )` of a sub-identifier, and the same as unsigned. */
  function FromSubId(k: Kind, x: SubId): Long {
    if k == Integer && x >= TWO_31 then x - TWO_32 else x
  }

  function Zeros(n: nat): ObjectId {
    seq(n, i => 0)
  }

  /** How many sub-identifiers the value takes, and how many stand in front of them: an IMPLIED type
      takes all that are left, unless the variable came with a length; for the others the first
      sub-identifier says. */
  function Count(k: Kind, was: Value, ids: ObjectId): (c: (nat, nat))
    ensures c.1 <= |ids|
  {
    if Implied(k) then
      var length := ValueLength(was);
      (if length == 0 then |ids| % TWO_32 else length % TWO_32, 0)
    else if ids == [] then (0, 0)
    else (ids[0], 1)
  }

  predicate Implied(k: Kind) {
    k == ImpliedString || k == ImpliedOid
  }

  predicate StringLike(k: Kind) {
    k == String || k == ImpliedString
  }

  /** A string or object identifier of n sub-identifiers; missing ones count as 0 when a name need
      not be complete. A string of none leaves the variable as it was. */
  function Take(k: Kind, was: Value, n: nat, left: ObjectId, complete: bool): Option<(Value, ObjectId)> {
    if !Implied(k) && n > |left| && !complete then None
    else if StringLike(k) && n == 0 then Some((was, left))
    else if n > MAX_OID_LEN then None
    else
      var taken := if n > |left| then left + Zeros(n - |left|) else left[..n];
      var rest := if n > |left| then [] else left[n..];
      Some((if StringLike(k) then Octets(Narrowed(taken)) else Name(taken), rest))
  }

  function FirstOctets(ids: ObjectId, n: nat): (s: seq<Byte>)
    requires n <= |ids|
    ensures |s| == 4
  {
    seq(4, i => if 0 <= i < n then ids[i] % 256 else 0)
  }

  /** An address from up to four sub-identifiers, which must be octets. */
  function AddressOf(ids: ObjectId): (r: Option<seq<Byte>>)
    ensures r.Some? ==> |r.value| == 4
  {
    var n := if |ids| < 4 then |ids| else 4;
    if forall i :: 0 <= i < n ==> ids[i] < 256 then Some(FirstOctets(ids, n)) else None
  }

  /** Mib_parseOneOidIndex: the new value and the sub-identifiers left. */
  function ParseOne(k: Kind, was: Value, ids: ObjectId, complete: bool): Option<(Value, ObjectId)>
    requires WellTyped(k, was)
  {
    if (ids == [] && !complete) || k == Other then None
    else if k == Integer || k == Unsigned then
      if ids == [] then Some((Number(0), [])) else Some((Number(FromSubId(k, ids[0])), ids[1..]))
    else if k == IpAddress then
      if |ids| < 4 && !complete then None
      else
        var a :- AddressOf(ids);
        Some((Octets(a), if |ids| < 4 then [] else ids[4..]))
    else
      var c := Count(k, was, ids);
      Take(k, was, c.0, ids[c.1..], complete)
  }

  /** Mib_parseOidIndexes: every variable must get a value, and no sub-identifier may be left. */
  function ParseAll(list: seq<Index>, ids: ObjectId): (r: Option<seq<Value>>)
    requires AllTyped(list)
    ensures r.Some? ==> |r.value| == |list|
  {
    if list == [] then if ids == [] then Some([]) else None
    else if ids == [] then None
    else
      var p :- ParseOne(list[0].kind, list[0].value, ids, false);
      var rest :- ParseAll(list[1..], p.1);
      Some([p.0] + rest)
  }

  // ----- the round trip -----------------------------------------------------------------

  /** The same variables, before anything was put into them. */
  function Blank(list: seq<Index>): (b: seq<Index>)
    ensures |b| == |list| && AllTyped(b)
    ensures forall i :: 0 <= i < |list| ==> b[i] == Index(list[i].kind, Fresh(list[i].kind))
  {
    seq(|list|, i requires 0 <= i < |list| => Index(list[i].kind, Fresh(list[i].kind)))
  }

  function Values(list: seq<Index>): (v: seq<Value>)
    ensures |v| == |list| && forall i :: 0 <= i < |list| ==> v[i] == list[i].value
  {
    seq(|list|, i requires 0 <= i < |list| => list[i].value)
  }

  /** What a variable comes back with: an address in the other order. */
  function Returned(i: Index): Value
    requires WellTyped(i.kind, i.value)
  {
    if i.kind == IpAddress then Octets(Swapped(i.value.s)) else i.value
  }

  function AllReturned(list: seq<Index>): (v: seq<Value>)
    requires AllTyped(list)
    ensures |v| == |list| && forall i :: 0 <= i < |list| ==> v[i] == Returned(list[i])
  {
    seq(|list|, i requires 0 <= i < |list| => Returned(list[i]))
  }

  /** An address that reads the same in both orders. */
  predicate Symmetric(i: Index)
    requires WellTyped(i.kind, i.value)
  {
    i.kind == IpAddress ==> i.value.s[0] == i.value.s[3] && i.value.s[1] == i.value.s[2]
  }

  predicate AllSymmetric(list: seq<Index>)
    requires AllTyped(list)
  {
    forall i :: 0 <= i < |list| ==> Symmetric(list[i])
  }

  /** The numbers a sub-identifier gives back. */
  predicate InRange(i: Index)
    requires WellTyped(i.kind, i.value)
  {
    && (i.kind == Integer ==> -TWO_31 <= i.value.n < TWO_31)
    && (i.kind == Unsigned ==> 0 <= i.value.n < TWO_32)
  }

  /** Numbers in range, and an IMPLIED index only last and not empty. */
  predicate Decodable(list: seq<Index>)
    requires AllTyped(list)
  {
    list == [] ||
    (InRange(list[0]) && (Implied(list[0].kind) ==> |list| == 1 && ValueLength(list[0].value) > 0) && Decodable(list[1..]))
  }

  lemma NarrowedWidened(s: seq<Byte>)
    ensures Narrowed(Widened(s)) == s
  {
  }

  lemma NumberComesBack(i: Index)
    requires WellTyped(i.kind, i.value) && (i.kind == Integer || i.kind == Unsigned)
    ensures FromSubId(i.kind, i.value.n % TWO_32) == i.value.n <==> InRange(i)
  {
  }

  /** One number, with the rest of the name behind it. */
  lemma NumberParses(i: Index, rest: ObjectId)
    requires WellTyped(i.kind, i.value) && (i.kind == Integer || i.kind == Unsigned)
    ensures var p := ParseOne(i.kind, Fresh(i.kind), Segment(i.kind, i.value).value + rest, false);
            p.Some? && p.value.1 == rest && (p.value.0 == i.value <==> InRange(i))
  {
    var ids := [i.value.n % TWO_32] + rest;
    assert ids[1..] == rest;
    NumberComesBack(i);
  }

  /** The sub-identifiers a string or object identifier consists of. */
  function Content(v: Value): ObjectId
    requires !v.Number?
  {
    if v.Octets? then Widened(v.s) else v.o
  }

  lemma TakesContent(k: Kind, v: Value, rest: ObjectId)
    requires WellTyped(k, v) && (StringLike(k) || k == Oid || k == ImpliedOid) && |Content(v)| <= MAX_OID_LEN
    ensures Take(k, Fresh(k), |Content(v)|, Content(v) + rest, false) == Some((v, rest))
  {
    var c := Content(v);
    assert (c + rest)[..|c|] == c && (c + rest)[|c|..] == rest;
    if v.Octets? {
      NarrowedWidened(v.s);
    }
  }

  /** One string or object identifier with its length in front, and the rest of the name behind it. */
  lemma CountedParses(i: Index, rest: ObjectId)
    requires WellTyped(i.kind, i.value) && Segment(i.kind, i.value).Some? && (i.kind == String || i.kind == Oid)
    ensures ParseOne(i.kind, Fresh(i.kind), Segment(i.kind, i.value).value + rest, false) == Some((i.value, rest))
  {
    hide Take;
    var c := Content(i.value);
    var ids := ([|c| % TWO_32] + c) + rest;
    assert ids[1..] == c + rest;
    TakesContent(i.kind, i.value, rest);
  }

  /** An address: built from a number in the host's order, taken apart in network order. */
  lemma AddressParses(i: Index, rest: ObjectId)
    requires WellTyped(i.kind, i.value) && i.kind == IpAddress
    ensures ParseOne(i.kind, Fresh(i.kind), Segment(i.kind, i.value).value + rest, false) == Some((Returned(i), rest))
  {
    var c := Widened(Swapped(i.value.s));
    assert (c + rest)[..4] == c && (c + rest)[4..] == rest;
    assert FirstOctets(c + rest, 4) == Swapped(i.value.s);
  }

  /** An index that is not IMPLIED, with the rest of the name behind it. */
  lemma OneComesBack(i: Index, rest: ObjectId)
    requires WellTyped(i.kind, i.value) && Segment(i.kind, i.value).Some? && !Implied(i.kind)
    ensures var p := ParseOne(i.kind, Fresh(i.kind), Segment(i.kind, i.value).value + rest, false);
            && p.Some? && p.value.1 == rest && (p.value.0 == Returned(i) <==> InRange(i))
            && (p.value.0 == i.value <==> InRange(i) && Symmetric(i))
    ensures Segment(i.kind, i.value).value != []
  {
    if i.kind == Integer || i.kind == Unsigned {
      NumberParses(i, rest);
    } else if i.kind == IpAddress {
      AddressParses(i, rest);
    } else {
      CountedParses(i, rest);
    }
  }

  /** An IMPLIED index comes back when it is last and not empty. */
  lemma ImpliedLast(i: Index)
    requires WellTyped(i.kind, i.value) && Segment(i.kind, i.value).Some? && Implied(i.kind)
    requires ValueLength(i.value) > 0
    ensures var s := Segment(i.kind, i.value).value;
            s != [] && ParseOne(i.kind, Fresh(i.kind), s, false) == Some((i.value, []))
  {
    hide Take;
    var s := Segment(i.kind, i.value).value;
    assert s[0..] == s && s + [] == s;
    TakesContent(i.kind, i.value, []);
  }

  lemma ImpliedEmpty(i: Index)
    requires WellTyped(i.kind, i.value) && Segment(i.kind, i.value).Some? && Implied(i.kind)
    ensures Segment(i.kind, i.value).value == [] <==> ValueLength(i.value) == 0
  {
  }

  /** With something behind it, it takes that too. */
  lemma ImpliedTakesAll(i: Index, rest: ObjectId)
    requires WellTyped(i.kind, i.value) && Segment(i.kind, i.value).Some? && Implied(i.kind)
    requires rest != [] && |Segment(i.kind, i.value).value + rest| < TWO_32
    ensures var p := ParseOne(i.kind, Fresh(i.kind), Segment(i.kind, i.value).value + rest, false);
            p.Some? ==> p.value.0 != i.value
  {
    hide Widened, Narrowed, Zeros;
    var ids := Segment(i.kind, i.value).value + rest;
    assert ids[0..] == ids && ids[..|ids|] == ids;
  }

  lemma SegmentsOf(list: seq<Index>)
    requires AllTyped(list) && Segments(list).Some? && list != []
    ensures AllTyped(list[1..]) && Segment(list[0].kind, list[0].value).Some? && Segments(list[1..]).Some?
    ensures Segments(list).value == Segment(list[0].kind, list[0].value).value + Segments(list[1..]).value
  {
    hide Segment, WellTyped;
  }

  lemma BlankOf(list: seq<Index>)
    requires AllTyped(list) && list != []
    ensures Blank(list)[0] == Index(list[0].kind, Fresh(list[0].kind)) && Blank(list)[1..] == Blank(list[1..])
  {
    hide Fresh, WellTyped;
  }

  lemma ValuesOf(list: seq<Index>)
    requires AllTyped(list) && list != []
    ensures AllTyped(list[1..])
    ensures Values(list) == [list[0].value] + Values(list[1..])
    ensures AllReturned(list) == [Returned(list[0])] + AllReturned(list[1..])
  {
    hide Returned, WellTyped, Values, AllReturned;
    var t := list[1..];
    forall k | 0 <= k < |list|
      ensures Values(list)[k] == ([list[0].value] + Values(t))[k]
      ensures AllReturned(list)[k] == ([Returned(list[0])] + AllReturned(t))[k]
    {
      assert k > 0 ==> t[k - 1] == list[k];
    }
  }

  /** Numbers in range and IMPLIED only last and not empty: then fresh variables of the same types
      get the values back, addresses in the other order. */
  lemma {:induction false} IndexesComeBack(list: seq<Index>)
    requires AllTyped(list) && Segments(list).Some? && Decodable(list)
    ensures ParseAll(Blank(list), Segments(list).value) == Some(AllReturned(list))
  {
    hide Segment, ParseOne;
    if list != [] {
      SegmentsOf(list);
      BlankOf(list);
      ValuesOf(list);
      IndexesComeBack(list[1..]);
      var i, rest := list[0], Segments(list[1..]).value;
      if Implied(i.kind) {
        assert list[1..] == [];
        ImpliedLast(i);
        assert Segments(list).value == Segment(i.kind, i.value).value;
      } else {
        OneComesBack(i, rest);
      }
    }
  }

  lemma FirstValue(list: seq<Index>, ids: ObjectId, values: seq<Value>)
    requires AllTyped(list) && list != [] && ParseAll(list, ids) == Some(values)
    ensures ids != [] && values != []
    ensures var p := ParseOne(list[0].kind, list[0].value, ids, false);
            p.Some? && p.value.0 == values[0] && ParseAll(list[1..], p.value.1) == Some(values[1..])
    ensures |list| > 1 ==> ParseOne(list[0].kind, list[0].value, ids, false).value.1 != []
  {
    hide ParseOne;
  }

  /** And only then, for names of fewer than 2^32 sub-identifiers. */
  lemma {:induction false} OnlyDecodableComeBack(list: seq<Index>)
    requires AllTyped(list) && Segments(list).Some? && |Segments(list).value| < TWO_32
    requires ParseAll(Blank(list), Segments(list).value) == Some(Values(list))
    ensures Decodable(list) && AllSymmetric(list)
  {
    hide Segment, ParseOne;
    if list != [] {
      SegmentsOf(list);
      BlankOf(list);
      ValuesOf(list);
      var i, rest := list[0], Segments(list[1..]).value;
      var s := Segment(i.kind, i.value).value;
      FirstValue(Blank(list), s + rest, Values(list));
      if Implied(i.kind) {
        if rest != [] {
          ImpliedTakesAll(i, rest);
        }
        assert rest == [] && s + rest == s;
        ImpliedEmpty(i);
        ImpliedLast(i);
      } else {
        OneComesBack(i, rest);
        OnlyDecodableComeBack(list[1..]);
      }
    }
  }

  lemma SymmetricReturned(list: seq<Index>)
    requires AllTyped(list) && AllSymmetric(list)
    ensures AllReturned(list) == Values(list)
  {
    forall i | 0 <= i < |list|
      ensures Returned(list[i]) == list[i].value
    {
      assert Symmetric(list[i]);
      if list[i].kind == IpAddress {
        assert Swapped(list[i].value.s) == list[i].value.s;
      }
    }
  }

  /** The round trip, and exactly when it holds. */
  lemma IndexRoundTrip(list: seq<Index>)
    requires AllTyped(list) && Segments(list).Some?
    ensures Decodable(list) && AllSymmetric(list) ==> ParseAll(Blank(list), Segments(list).value) == Some(Values(list))
    ensures |Segments(list).value| < TWO_32 ==>
              (ParseAll(Blank(list), Segments(list).value) == Some(Values(list)) <==> Decodable(list) && AllSymmetric(list))
  {
    hide Decodable, ParseAll, AllSymmetric, WellTyped;
    if Decodable(list) && AllSymmetric(list) {
      IndexesComeBack(list);
      SymmetricReturned(list);
    } else if |Segments(list).value| < TWO_32 && ParseAll(Blank(list), Segments(list).value) == Some(Values(list)) {
      OnlyDecodableComeBack(list);
    }
  }

  lemma ReturnedInjective(a: Index, b: Index)
    requires WellTyped(a.kind, a.value) && WellTyped(b.kind, b.value) && a.kind == b.kind && Returned(a) == Returned(b)
    ensures a == b
  {
    if a.kind == IpAddress {
      assert Swapped(Swapped(a.value.s)) == a.value.s && Swapped(Swapped(b.value.s)) == b.value.s;
    }
  }

  /** No two lists of decodable indexes of the same types give the same name. */
  lemma SegmentsInjective(a: seq<Index>, b: seq<Index>)
    requires AllTyped(a) && AllTyped(b) && Decodable(a) && Decodable(b)
    requires |a| == |b| && forall i :: 0 <= i < |a| ==> a[i].kind == b[i].kind
    requires Segments(a).Some? && Segments(a) == Segments(b)
    ensures a == b
  {
    IndexesComeBack(a);
    IndexesComeBack(b);
    assert Blank(a) == Blank(b);
    assert AllReturned(a) == AllReturned(b);
    forall i | 0 <= i < |a|
      ensures a[i] == b[i]
    {
      assert AllReturned(a)[i] == AllReturned(b)[i];
      ReturnedInjective(a[i], b[i]);
    }
  }
}
