/** Asn01_buildObjid: a first loop sizes every sub-identifier, a second one writes them. */
module ForwardOid {
  import opened Bytes
  import opened Ber
  import opened Tags
  import opened ForwardBuffer
  import opened ForwardEncode

  predicate ForwardBuildable(o: ObjectId) {
    Buildable(o) && |o| <= MAX_OID_LEN
  }

  /** The values the loops run over: the first two sub-identifiers combined, then the others. */
  function Encoded(o: ObjectId): (vals: ObjectId)
    requires Buildable(o)
    ensures |vals| >= 1 && (|o| <= MAX_OID_LEN ==> |vals| < MAX_OID_LEN)
  {
    if |o| == 0 then [0] else if |o| == 1 then [o[0] * 40] else Combined(o)
  }

  lemma EncodedContent(o: ObjectId)
    requires Buildable(o)
    ensures EncSubIds(Encoded(o)) == ForwardOidContent(o)
  {
    var v := Encoded(o);
    if |o| <= 1 {
      assert v[1..] == [] && EncSubId(v[0]) == [v[0]];
      assert EncSubIds([]) == [];
    }
  }

  /** The size table of the first loop. */
  function SizeOf(v: SubId): (n: nat)
    ensures 1 <= n <= 5
  {
    if v < 0x80 then 1
    else if v < 0x4000 then 2
    else if v < 0x20_0000 then 3
    else if v < 0x1000_0000 then 4
    else 5
  }

  lemma SizeIsExact(v: SubId)
    ensures |EncSubId(v)| == SizeOf(v)
  {
    hide EncSubId;
    SubIdOctets(v);
  }

  lemma {:induction false} SubIdsAppend(vs: ObjectId, v: SubId)
    ensures EncSubIds(vs + [v]) == EncSubIds(vs) + EncSubId(v)
  {
    hide EncSubId;
    if vs == [] {
      assert [v][1..] == [] && EncSubIds([]) == [];
      assert vs + [v] == [v];
    } else {
      assert (vs + [v])[1..] == vs[1..] + [v];
      SubIdsAppend(vs[1..], v);
      Assoc(EncSubId(vs[0]), EncSubIds(vs[1..]), EncSubId(v));
    }
  }

  /** `objid_val` for the i-th turn of either loop (turns are counted from 1). */
  function ValueAt(o: ObjectId, i: nat): SubId
    requires Buildable(o) && 1 <= i <= |Encoded(o)|
  {
    if i == 1 then Encoded(o)[0] else o[i]
  }

  lemma ValueAtIs(o: ObjectId, i: nat)
    requires Buildable(o) && 1 <= i <= |Encoded(o)|
    ensures ValueAt(o, i) == Encoded(o)[i - 1]
  {
  }

  /** The first loop: fills `objid_size` and adds the sizes up. */
  method Sizes(o: ObjectId, objidSize: array<nat>) returns (asnlength: nat)
    requires ForwardBuildable(o) && objidSize.Length == MAX_OID_LEN
    modifies objidSize
    ensures asnlength == |ForwardOidContent(o)|
    ensures forall i :: 1 <= i <= |Encoded(o)| ==> objidSize[i] == SizeOf(ValueAt(o, i))
  {
    hide EncSubId, Encoded, ValueAt, SizeOf;
    EncodedContent(o);
    ghost var vals := Encoded(o);
    var i, n := 1, if |o| >= 2 then |o| - 1 else 1;
    EncodedCount(o);
    asnlength := 0;
    assert vals[..0] == [] && EncSubIds([]) == [];
    while i <= n
      invariant 1 <= i <= n + 1 && n == |vals|
      invariant asnlength == |EncSubIds(vals[..i - 1])|
      invariant forall j :: 1 <= j < i ==> objidSize[j] == SizeOf(ValueAt(o, j))
    {
      var v := ValueAt(o, i);
      ValueAtIs(o, i);
      SizeIsExact(v);
      assert vals[..i] == vals[..i - 1] + [v];
      SubIdsAppend(vals[..i - 1], v);
      objidSize[i] := SizeOf(v);
      asnlength, i := asnlength + SizeOf(v), i + 1;
    }
    assert vals[..n] == vals;
  }

  lemma EncodedCount(o: ObjectId)
    requires Buildable(o)
    ensures |Encoded(o)| == if |o| >= 2 then |o| - 1 else 1
  {
  }

  /** The switch of the second loop. */
  method StoreSubId(c: Cursor, v: SubId, size: nat)
    requires c.Valid() && size == SizeOf(v) && c.left >= size
    modifies c, c.buf
    ensures c.Valid() && c.content == old(c.content) + EncSubId(v) && c.left == old(c.left) - size
  {
    hide EncSubId;
    SubIdOctets(v);
    var last: Byte := v % 128;
    if size == 1 {
      c.Store(last);
    } else if size == 2 {
      StoreTwo(c, 128 + v / 0x80, last);
    } else if size == 3 {
      c.Store(128 + v / 0x4000);
      StoreTwo(c, 128 + v / 0x80 % 128, last);
    } else if size == 4 {
      StoreTwo(c, 128 + v / 0x20_0000, 128 + v / 0x4000 % 128);
      StoreTwo(c, 128 + v / 0x80 % 128, last);
    } else {
      c.Store(128 + v / 0x1000_0000);
      StoreTwo(c, 128 + v / 0x20_0000 % 128, 128 + v / 0x4000 % 128);
      StoreTwo(c, 128 + v / 0x80 % 128, last);
    }
  }

  method StoreTwo(c: Cursor, b0: Byte, b1: Byte)
    requires c.Valid() && c.left >= 2
    modifies c, c.buf
    ensures c.Valid() && c.content == old(c.content) + [b0, b1] && c.left == old(c.left) - 2
  {
    c.Store(b0);
    c.Store(b1);
  }

  /** The second loop. */
  method StoreSubIds(c: Cursor, o: ObjectId, objidSize: array<nat>)
    requires ForwardBuildable(o) && objidSize.Length == MAX_OID_LEN && objidSize as object != c.buf
    requires forall i :: 1 <= i <= |Encoded(o)| ==> objidSize[i] == SizeOf(ValueAt(o, i))
    requires c.Valid() && c.left >= |ForwardOidContent(o)|
    modifies c, c.buf
    ensures c.Valid() && c.content == old(c.content) + ForwardOidContent(o)
    ensures c.left == old(c.left) - |ForwardOidContent(o)|
  {
    hide EncSubId, Encoded, ValueAt, SizeOf, ForwardOidContent;
    EncodedContent(o);
    ghost var vals, before := Encoded(o), c.content;
    var i, n := 1, if |o| >= 2 then |o| - 1 else 1;
    EncodedCount(o);
    assert vals[..0] == [] && EncSubIds([]) == [] && before + [] == before;
    while i <= n
      invariant 1 <= i <= n + 1 && n == |vals|
      invariant c.Valid() && c.content == before + EncSubIds(vals[..i - 1])
      invariant c.left == old(c.left) - |EncSubIds(vals[..i - 1])|
    {
      var v := ValueAt(o, i);
      ValueAtIs(o, i);
      SizeIsExact(v);
      assert vals[..i] == vals[..i - 1] + [v];
      SubIdsAppend(vals[..i - 1], v);
      PrefixFits(vals, i);
      Assoc(before, EncSubIds(vals[..i - 1]), EncSubId(v));
      StoreSubId(c, v, objidSize[i]);
      i := i + 1;
    }
    assert vals[..n] == vals;
  }

  lemma {:induction false} PrefixFits(vals: ObjectId, i: nat)
    requires i <= |vals|
    ensures |EncSubIds(vals[..i])| <= |EncSubIds(vals)|
    decreases |vals| - i
  {
    hide EncSubId;
    if i < |vals| {
      PrefixFits(vals, i + 1);
      assert vals[..i + 1] == vals[..i] + [vals[i]];
      SubIdsAppend(vals[..i], vals[i]);
    } else {
      assert vals[..i] == vals;
    }
  }

  /** Asn01_buildObjid */
  method BuildObjid(c: Cursor, tag: Byte, o: ObjectId) returns (ok: bool)
    requires c.Valid()
    modifies c, c.buf
    ensures !ForwardBuildable(o) ==> !ok
    ensures ForwardBuildable(o) ==> c.Appended(ForwardTlv(tag, ForwardOidContent(o)), ok)
  {
    hide ForwardOidContent, ForwardLength, Encoded, ValueAt;
    if |o| > 0 && o[0] > 2 {
      return false;
    }
    if |o| >= 2 && o[1] > 40 && o[0] < 2 {
      return false;
    }
    if |o| > MAX_OID_LEN {
      return false;
    }
    var objidSize := new nat[MAX_OID_LEN];
    var asnlength := Sizes(o, objidSize);
    ContentJoins(c.content, tag, ForwardOidContent(o));
    ok := HeaderWithRoom(c, tag, asnlength);
    if ok {
      StoreSubIds(c, o, objidSize);
    }
  }
}
