/** The lexicographic order of object identifiers. */
module OidOrder {
  import opened Bytes

  predicate Less(a: ObjectId, b: ObjectId) {
    b != [] && (a == [] || a[0] < b[0] || (a[0] == b[0] && Less(a[1..], b[1..])))
  }

  /** -1, 0 or 1, as C comparison functions answer. */
  function Compare(a: ObjectId, b: ObjectId): int {
    if a == b then 0 else if Less(a, b) then -1 else 1
  }

  /** Length of the longest common prefix. */
  function Common(a: ObjectId, b: ObjectId): (k: nat)
    ensures k <= |a| && k <= |b| && a[..k] == b[..k]
    ensures k < |a| && k < |b| ==> a[k] != b[k]
  {
    if a != [] && b != [] && a[0] == b[0] then
      assert a == [a[0]] + a[1..] && b == [b[0]] + b[1..];
      1 + Common(a[1..], b[1..])
    else 0
  }

  /** Whatever agrees so far and then differs or ends is the longest common prefix. */
  lemma {:induction false} CommonIs(a: ObjectId, b: ObjectId, k: nat)
    requires k <= |a| && k <= |b| && forall i :: 0 <= i < k ==> a[i] == b[i]
    requires k < |a| && k < |b| ==> a[k] != b[k]
    ensures Common(a, b) == k
    decreases k
  {
    if k > 0 {
      CommonIs(a[1..], b[1..], k - 1);
    }
  }

  /** The first difference decides; without one the shorter name comes first. */
  lemma {:induction false} LessAtDifference(a: ObjectId, b: ObjectId)
    ensures var k := Common(a, b);
            Less(a, b) <==> k < |b| && (k == |a| || a[k] < b[k])
    decreases |a|
  {
    if a != [] && b != [] && a[0] == b[0] {
      LessAtDifference(a[1..], b[1..]);
    }
  }

  lemma {:induction false} LessIrreflexive(a: ObjectId)
    ensures !Less(a, a)
  {
    if a != [] {
      LessIrreflexive(a[1..]);
    }
  }

  lemma {:induction false} LessTransitive(a: ObjectId, b: ObjectId, c: ObjectId)
    requires Less(a, b) && Less(b, c)
    ensures Less(a, c)
    decreases |a|
  {
    if a != [] && a[0] == b[0] == c[0] {
      LessTransitive(a[1..], b[1..], c[1..]);
    }
  }

  lemma {:induction false} LessTotal(a: ObjectId, b: ObjectId)
    requires a != b
    ensures Less(a, b) != Less(b, a)
    decreases |a|
  {
    if a != [] && b != [] && a[0] == b[0] {
      assert a == [a[0]] + a[1..] && b == [b[0]] + b[1..];
      LessTotal(a[1..], b[1..]);
    }
  }

  /** The answers of Compare are those of a total order. */
  lemma CompareTotalOrder(a: ObjectId, b: ObjectId, c: ObjectId)
    ensures Compare(a, b) == 0 <==> a == b
    ensures Compare(a, b) == -Compare(b, a)
    ensures Compare(a, b) <= 0 && Compare(b, c) <= 0 ==> Compare(a, c) <= 0
  {
    if a != b {
      LessTotal(a, b);
    }
    if Less(a, b) && Less(b, c) {
      LessTransitive(a, b, c);
    }
  }

  lemma {:induction false} PrefixLess(a: ObjectId, b: ObjectId)
    requires b != []
    ensures Less(a, a + b)
  {
    if a != [] {
      PrefixLess(a[1..], b);
      assert (a + b)[1..] == a[1..] + b;
    }
  }

  /** A common front does not matter. */
  lemma {:induction false} LessBehind(p: ObjectId, a: ObjectId, b: ObjectId)
    ensures Less(p + a, p + b) <==> Less(a, b)
  {
    if p == [] {
      assert p + a == a && p + b == b;
    } else {
      assert (p + a)[1..] == p[1..] + a && (p + b)[1..] == p[1..] + b;
      LessBehind(p[1..], a, b);
    }
  }

  /** The names below a root are an interval: what lies between two of them is one of them. */
  lemma {:induction false} SubtreeIsInterval(root: ObjectId, a: ObjectId, b: ObjectId, c: ObjectId)
    requires root <= a && root <= c
    requires Less(a, b) && Less(b, c)
    ensures root <= b
    decreases |root|
  {
    if root != [] {
      assert a[0] == root[0] == c[0] == b[0];
      SubtreeIsInterval(root[1..], a[1..], b[1..], c[1..]);
    }
  }

  /** Names strictly below a root come behind it, and before every other name behind it. */
  lemma BelowRoot(root: ObjectId, a: ObjectId, b: ObjectId)
    requires root < a && Less(root, b) && !(root <= b)
    ensures Less(root, a) && Less(a, b)
  {
    assert a == root + a[|root|..];
    PrefixLess(root, a[|root|..]);
    if !Less(a, b) {
      LessTotal(a, b);
      SubtreeIsInterval(root, root, b, a);
    }
  }
}
