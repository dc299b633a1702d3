/** The comparison family of Api.c: loops with decremented counters over two names. */
module OidCompare {
  import opened Bytes
  import opened OidOrder

  function Min(a: nat, b: nat): nat {
    if a < b then a else b
  }

  function Cut(a: ObjectId, n: nat): ObjectId {
    a[..Min(|a|, n)]
  }

  /** What a loop that found no difference in front of k, and one at k or no more room, may answer. */
  lemma Decided(a: ObjectId, b: ObjectId, k: nat)
    requires k <= |a| && k <= |b| && forall i :: 0 <= i < k ==> a[i] == b[i]
    requires k < |a| && k < |b| ==> a[k] != b[k]
    ensures Common(a, b) == k
    ensures Compare(a, b) ==
            if k < |a| && k < |b| then (if a[k] < b[k] then -1 else 1)
            else if |a| < |b| then -1 else if |b| < |a| then 1 else 0
  {
    CommonIs(a, b, k);
    LessAtDifference(a, b);
    LessAtDifference(b, a);
    CommonIs(b, a, k);
    LessIrreflexive(a);
    if k == |a| == |b| {
      assert a == b;
    }
  }

  /** Api_oidCompare */
  method OidCompare(name1: ObjectId, name2: ObjectId) returns (r: int)
    ensures r == Compare(name1, name2)
  {
    var len, k := Min(|name1|, |name2|), 0;
    while len > 0
      invariant 0 <= k && k + len == Min(|name1|, |name2|)
      invariant forall i :: 0 <= i < k ==> name1[i] == name2[i]
    {
      len := len - 1;
      if name1[k] != name2[k] {
        Decided(name1, name2, k);
        if name1[k] < name2[k] {
          return -1;
        }
        return 1;
      }
      k := k + 1;
    }
    Decided(name1, name2, k);
    if |name1| < |name2| {
      return -1;
    }
    if |name2| < |name1| {
      return 1;
    }
    return 0;
  }

  /** Api_oidNcompare: both names cut to max_len. */
  method OidNcompare(name1: ObjectId, name2: ObjectId, maxLen: nat) returns (r: int)
    ensures r == Compare(Cut(name1, maxLen), Cut(name2, maxLen))
  {
    ghost var a, b := Cut(name1, maxLen), Cut(name2, maxLen);
    var minLen := Min(Min(|name1|, |name2|), maxLen);
    var len, k := minLen, 0;
    while len > 0
      invariant 0 <= k && k + len == minLen
      invariant forall i :: 0 <= i < k ==> a[i] == b[i]
    {
      len := len - 1;
      assert a[k] == name1[k] && b[k] == name2[k];
      if name1[k] != name2[k] {
        Decided(a, b, k);
        if name1[k] < name2[k] {
          return -1;
        }
        return 1;
      }
      k := k + 1;
    }
    Decided(a, b, k);
    if minLen != maxLen {
      if |name1| < |name2| {
        return -1;
      }
      if |name2| < |name1| {
        return 1;
      }
    }
    return 0;
  }

  /** Api_oidCompareLl: `offpt` is one more than the length of the common prefix, also when the
      counter ran out, where it has been decremented below zero. */
  method OidCompareLl(name1: ObjectId, name2: ObjectId) returns (r: int, offpt: int)
    ensures r == Compare(name1, name2)
    ensures offpt == Common(name1, name2) + 1
  {
    var initlen: int := Min(|name1|, |name2|);
    var len: int, k := initlen, 0;
    while len > 0
      invariant 0 <= k <= initlen && k + len == initlen
      invariant forall i :: 0 <= i < k ==> name1[i] == name2[i]
    {
      len := len - 1;
      if name1[k] != name2[k] {
        Decided(name1, name2, k);
        offpt := initlen - len;
        if name1[k] < name2[k] {
          return -1, offpt;
        }
        return 1, offpt;
      }
      k := k + 1;
    }
    len := len - 1;
    Decided(name1, name2, k);
    offpt := initlen - len;
    if |name1| < |name2| {
      return -1, offpt;
    }
    if |name2| < |name1| {
      return 1, offpt;
    }
    return 0, offpt;
  }

  /** Api_oidtreeCompare */
  method OidTreeCompare(name1: ObjectId, name2: ObjectId) returns (r: int)
    ensures r == if name1 <= name2 || name2 <= name1 then 0 else Compare(name1, name2)
  {
    var len := Min(|name1|, |name2|);
    r := OidCompare(name1[..len], name2[..len]);
    if name1[..len] != name2[..len] {
      CutDecides(name1, name2, len);
    }
  }

  /** A difference within both names is the same for their fronts and for the whole names. */
  lemma CutDecides(a: ObjectId, b: ObjectId, n: nat)
    requires n <= |a| && n <= |b| && a[..n] != b[..n]
    ensures Compare(a[..n], b[..n]) == Compare(a, b)
  {
    LessTotal(a[..n], b[..n]);
    LessTotal(a, b);
    if Less(a[..n], b[..n]) {
      CutLess(a, b, n);
    } else {
      CutLess(b, a, n);
    }
  }

  lemma CutLess(a: ObjectId, b: ObjectId, n: nat)
    requires n <= |a| && n <= |b| && Less(a[..n], b[..n])
    ensures Less(a, b)
  {
    var k := Common(a[..n], b[..n]);
    LessAtDifference(a[..n], b[..n]);
    assert forall i :: 0 <= i < k ==> a[i] == a[..n][..k][i] && b[i] == b[..n][..k][i];
    CommonIs(a, b, k);
    LessAtDifference(a, b);
  }

  /** Api_oidsubtreeCompare */
  method OidSubtreeCompare(name1: ObjectId, name2: ObjectId) returns (r: int)
    ensures r == if name1 <= name2 then 0 else Compare(name1, name2)
  {
    var len := Min(|name1|, |name2|);
    r := OidCompare(name1, name2[..len]);
    if |name1| == len && name1 != name2[..len] {
      assert name1[..len] == name1;
      CutDecides(name1, name2, len);
    }
    assert name2[..|name2|] == name2;
  }

  /** Api_oidEquals */
  method OidEquals(name1: ObjectId, name2: ObjectId) returns (r: int)
    ensures r == if name1 == name2 then 0 else 1
  {
    if |name1| != |name2| {
      return 1;
    }
    var len, k := |name1|, 0;
    while len > 0
      invariant 0 <= k <= |name1| && k + len == |name1|
      invariant forall i :: 0 <= i < k ==> name1[i] == name2[i]
    {
      len := len - 1;
      if name1[k] != name2[k] {
        return 1;
      }
      k := k + 1;
    }
    return 0;
  }

  /** Api_oidIsSubtree: memcmp finds the octets equal exactly when the sub-identifiers are. */
  method OidIsSubtree(name1: ObjectId, name2: ObjectId) returns (r: int)
    ensures r == if name1 <= name2 then 0 else 1
  {
    if |name1| > |name2| {
      return 1;
    }
    if name1 != name2[..|name1|] {
      return 1;
    }
    return 0;
  }

  /** Api_oidFindPrefix, which calls an empty name an error. */
  method OidFindPrefix(name1: ObjectId, name2: ObjectId) returns (r: int)
    ensures r == if name1 == [] || name2 == [] then -1 else Common(name1, name2)
  {
    if name1 == [] || name2 == [] {
      return -1;
    }
    if name1[0] != name2[0] {
      return 0;
    }
    var minSize := Min(|name1|, |name2|);
    var i := 0;
    while i < minSize
      invariant 0 <= i <= minSize
      invariant forall j :: 0 <= j < i ==> name1[j] == name2[j]
    {
      if name1[i] != name2[i] {
        CommonIs(name1, name2, i);
        return i;
      }
      i := i + 1;
    }
    CommonIs(name1, name2, minSize);
    return minSize;
  }

  /** How the answers of the family hang together. */
  method Family(name1: ObjectId, name2: ObjectId) returns (subtree: int, subtreeCompare: int, prefix: int, offpt: int)
    ensures subtreeCompare == 0 <==> subtree == 0
    ensures name1 != [] && name2 != [] ==> offpt == prefix + 1
  {
    subtree := OidIsSubtree(name1, name2);
    subtreeCompare := OidSubtreeCompare(name1, name2);
    prefix := OidFindPrefix(name1, name2);
    var r;
    r, offpt := OidCompareLl(name1, name2);
  }
}
