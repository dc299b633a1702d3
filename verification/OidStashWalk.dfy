/** What the successor search of the stash is for: going through all stored names in order. */
module OidStashWalk {
  import opened Bytes
  import opened OidOrder
  import opened OidStash
  import opened OidStashNext

  /** q is the least of the names behind `lookup`; None when there is none. */
  ghost predicate IsSuccessor(names: set<ObjectId>, lookup: ObjectId, q: Option<ObjectId>) {
    if q == None then forall t :: t in names ==> !Less(lookup, t)
    else
      && q.value in names && Less(lookup, q.value)
      && forall t :: t in names && Less(lookup, t) && t != q.value ==> Less(q.value, t)
  }

  ghost function PathOf(r: Node?): Option<ObjectId> {
    if r == null then None else Some(r.path)
  }

  lemma DepthOfName(names: set<ObjectId>, lookup: ObjectId, i: nat)
    requires PrefixClosed(names) && lookup in names && i <= |lookup| && lookup[..i] in names
    ensures Depth(names, lookup, i) == |lookup|
    decreases |lookup| - i
  {
    if i < |lookup| {
      PrefixIn(names, lookup, i + 1);
      DepthOfName(names, lookup, i + 1);
    }
  }

  /** For a name that has a node, and for the empty name, the answer is the successor. */
  lemma NextIsSuccessor(s: Stash, lookup: ObjectId, r: Node?)
    requires s.Valid() && [] in s.tree && lookup in s.tree && IsNext(s, Start(s.tree.Keys, lookup), r)
    ensures IsSuccessor(s.Contents().Keys, lookup, PathOf(r))
  {
    hide Stash.Valid, Ahead;
    NamesClosed(s);
    assert lookup[..0] == [] && lookup[..|lookup|] == lookup;
    DepthOfName(s.tree.Keys, lookup, 0);
    forall q | q in s.Contents()
      ensures Ahead(q, Cursor(lookup, false, 0)) <==> Less(lookup, q)
    {
      AheadIsLess(q, lookup);
    }
    if r != null {
      AheadIsLess(r.path, lookup);
    }
  }

  // ----- names without a node -----------------------------------------------------------

  /** How a stored name compares to a name whose longest prefix with a node has length k. */
  lemma CompareToMissing(names: set<ObjectId>, lookup: ObjectId, k: nat, q: ObjectId)
    requires PrefixClosed(names) && q in names && k < |lookup| && lookup[..k + 1] !in names
    ensures Less(lookup, q) <==> if lookup[..k] <= q then |q| > k && lookup[k] < q[k] else Less(lookup[..k], q)
    ensures lookup[..k] <= q && |q| > k ==> q[k] != lookup[k]
  {
    var p, t := lookup[..k], lookup[k..];
    assert lookup == p + t;
    if p <= q && |q| > k {
      PrefixIn(names, q, k + 1);
      assert q[..k + 1] == p + [q[k]] && lookup[..k + 1] == p + [lookup[k]];
      assert q == p + q[k..];
      LessBehind(p, t, q[k..]);
    } else if p <= q {
      assert q == p;
      PrefixLess(p, t);
      if Less(lookup, q) {
        LessTransitive(q, lookup, q);
        LessIrreflexive(q);
      }
    } else {
      OutsideAlike(p, t, q);
    }
  }

  lemma OutsideAlike(p: ObjectId, t: ObjectId, q: ObjectId)
    requires t != [] && !(p <= q)
    ensures Less(p, q) <==> Less(p + t, q)
  {
    PrefixLess(p, t);
    if Less(p, q) {
      BelowRoot(p, p + t, q);
    } else if Less(p + t, q) {
      LessTransitive(p, p + t, q);
    }
  }

  /** What the search compares with, against what it should: the stored names below the longest
      prefix fall on the same side of both. */
  ghost predicate SameSide(names: set<ObjectId>, c: Cursor, v: SubId) {
    forall q :: q in names && c.p <= q && |q| > |c.p| ==> (c.Admits(q[|c.p|]) <==> q[|c.p|] > v)
  }

  /** Ahead of the position at the longest prefix, and behind the missing name. */
  lemma AheadOrBehind(names: set<ObjectId>, lookup: ObjectId, c: Cursor, k: nat, q: ObjectId)
    requires PrefixClosed(names) && q in names && k < |lookup| && lookup[..k + 1] !in names && c.p == lookup[..k]
    ensures if c.p <= q && |q| > k then (Ahead(q, c) <==> c.Admits(q[k])) && (Less(lookup, q) <==> q[k] > lookup[k])
            else Ahead(q, c) <==> Less(lookup, q)
  {
    CompareToMissing(names, lookup, k, q);
    if c.p <= q && |q| <= k {
      assert q == c.p;
      LessIrreflexive(q);
    }
  }

  lemma SuccessorOfSame(s: Stash, lookup: ObjectId, c: Cursor, r: Node?)
    requires s.Valid() && IsNext(s, c, r)
    requires forall q :: q in s.Contents() ==> (Ahead(q, c) <==> Less(lookup, q))
    ensures IsSuccessor(s.Contents().Keys, lookup, PathOf(r))
  {
    hide Stash.Valid, Ahead, Less;
  }

  lemma SameSideSuffices(s: Stash, lookup: ObjectId, c: Cursor, k: nat, r: Node?)
    requires s.Valid() && IsNext(s, c, r)
    requires k < |lookup| && lookup[..k + 1] !in s.tree && c.p == lookup[..k]
    requires SameSide(s.Contents().Keys, c, lookup[k])
    ensures IsSuccessor(s.Contents().Keys, lookup, PathOf(r))
  {
    hide Stash.Valid, IsNext, Ahead, Less, IsSuccessor;
    NamesClosed(s);
    forall q | q in s.Contents()
      ensures Ahead(q, c) <==> Less(lookup, q)
    {
      s.NoDataOutside(q);
      AheadOrBehind(s.tree.Keys, lookup, c, k, q);
    }
    SuccessorOfSame(s, lookup, c, r);
  }

  lemma SameSideNeeded(s: Stash, lookup: ObjectId, c: Cursor, k: nat, r: Node?, q: ObjectId)
    requires s.Valid() && IsNext(s, c, r) && IsSuccessor(s.Contents().Keys, lookup, PathOf(r))
    requires k < |lookup| && lookup[..k + 1] !in s.tree && c.p == lookup[..k]
    requires q in s.Contents() && c.p <= q && |q| > k
    ensures c.Admits(q[k]) <==> q[k] > lookup[k]
  {
    hide Stash.Valid, IsNext, Ahead, Less, IsSuccessor;
    NamesClosed(s);
    s.NoDataOutside(q);
    AheadOrBehind(s.tree.Keys, lookup, c, k, q);
    if Ahead(q, c) {
      NoneSkipped(s, c, lookup, r, q);
    }
    if Less(lookup, q) {
      NoneMissed(s, c, lookup, r, q);
    }
  }

  /** A name that is ahead, but in front of `lookup`, would have been found. */
  lemma NoneSkipped(s: Stash, c: Cursor, lookup: ObjectId, r: Node?, q: ObjectId)
    requires s.Valid() && IsNext(s, c, r) && IsSuccessor(s.Contents().Keys, lookup, PathOf(r))
    requires q in s.Contents() && Ahead(q, c)
    ensures Less(lookup, q)
  {
    hide Stash.Valid, Ahead;
    if r.path != q {
      LessTransitive(lookup, r.path, q);
    }
  }

  /** A name behind `lookup` that is not ahead would be in front of the one found. */
  lemma NoneMissed(s: Stash, c: Cursor, lookup: ObjectId, r: Node?, q: ObjectId)
    requires s.Valid() && IsNext(s, c, r) && IsSuccessor(s.Contents().Keys, lookup, PathOf(r))
    requires q in s.Contents() && Less(lookup, q)
    requires c.p <= q && |q| > |c.p|
    ensures Ahead(q, c)
  {
    hide Stash.Valid;
    if !Ahead(q, c) {
      if c.p <= r.path {
        AdmittedLater(c, q, r.path);
      } else {
        BelowRoot(c.p, q, r.path);
      }
      LessTotal(q, r.path);
      assert false;
    }
  }

  lemma StartAt(names: set<ObjectId>, lookup: ObjectId)
    requires [] in names && lookup[..0] == []
    ensures var k := Depth(names, lookup, 0);
            Start(names, lookup).p == lookup[..k] && (k < |lookup| ==> lookup[..k + 1] !in names)
  {
  }

  lemma AdmittedLater(c: Cursor, q: ObjectId, r: ObjectId)
    requires c.p <= q && c.p <= r && |q| > |c.p| && |r| > |c.p|
    requires !c.Admits(q[|c.p|]) && c.Admits(r[|c.p|])
    ensures Less(q, r)
  {
    var k := |c.p|;
    assert q == c.p + q[k..] && r == c.p + r[k..];
    LessBehind(c.p, q[k..], r[k..]);
  }

  lemma DepthOfMissing(names: set<ObjectId>, lookup: ObjectId)
    requires lookup !in names && [] in names && lookup[..0] == []
    ensures Depth(names, lookup, 0) < |lookup|
  {
    assert lookup[..|lookup|] == lookup;
  }

  /** For a name without a node, the answer is the successor if and only if the stored names below
      its longest prefix with a node fall on the same side of the sub-identifier the search
      compares with and of the one it should compare with. */
  lemma NextOfMissing(s: Stash, lookup: ObjectId, r: Node?)
    requires s.Valid() && [] in s.tree && lookup !in s.tree && IsNext(s, Start(s.tree.Keys, lookup), r)
    ensures lookup[..0] == [] && Depth(s.tree.Keys, lookup, 0) < |lookup|
    ensures IsSuccessor(s.Contents().Keys, lookup, PathOf(r))
            <==> SameSide(s.Contents().Keys, Start(s.tree.Keys, lookup), lookup[Depth(s.tree.Keys, lookup, 0)])
  {
    hide Stash.Valid, IsSuccessor, IsNext, Start, Depth;
    assert lookup[..0] == [];
    DepthOfMissing(s.tree.Keys, lookup);
    StartAt(s.tree.Keys, lookup);
    var c, k := Start(s.tree.Keys, lookup), Depth(s.tree.Keys, lookup, 0);
    if IsSuccessor(s.Contents().Keys, lookup, PathOf(r)) {
      forall q | q in s.Contents() && c.p <= q && |q| > |c.p|
        ensures c.Admits(q[|c.p|]) <==> q[|c.p|] > lookup[k]
      {
        SameSideNeeded(s, lookup, c, k, r, q);
      }
    } else if SameSide(s.Contents().Keys, c, lookup[k]) {
      SameSideSuffices(s, lookup, c, k, r);
    }
  }

  /** With only 1 stored, the answer for 3 is 1, which comes before it. */
  lemma NotTheSuccessor(s: Stash, r: Node?)
    requires s.Valid() && s.tree.Keys == {[], [1]} && s.Contents().Keys == {[1]}
    requires IsNext(s, Start(s.tree.Keys, [3]), r)
    ensures r != null && r.path == [1] && Less(r.path, [3])
  {
    hide Stash.Valid;
    var lookup: ObjectId := [3];
    assert lookup[..0] == [] && lookup[..1] == [3] && [3] !in s.tree.Keys;
    assert Depth(s.tree.Keys, lookup, 0) == 0;
    var one: ObjectId := [1];
    assert one in s.Contents() && Ahead(one, Cursor([], false, 0));
  }

  // ----- going through the stash --------------------------------------------------------

  /** The name of a node, collected from its ancestors' values. */
  method NameOf(s: Stash, n: Node) returns (name: ObjectId)
    requires s.Valid() && s.InTree(n)
    ensures name == n.path
  {
    hide Stash.Valid;
    name := [];
    var curnode: Node := n;
    s.ParentOf(curnode);
    while curnode.parent != null
      invariant s.InTree(curnode) && curnode.path + name == n.path
      invariant curnode.parent == null <==> curnode.path == []
      decreases |curnode.path|
    {
      s.ParentOf(curnode);
      assert curnode.path == Up(curnode.path) + [curnode.value];
      Assoc(Up(curnode.path), [curnode.value], name);
      name := [curnode.value] + name;
      curnode := curnode.parent;
      s.ParentOf(curnode);
    }
  }

  ghost predicate Increasing(names: seq<ObjectId>) {
    forall i, j :: 0 <= i < j < |names| ==> Less(names[i], names[j])
  }

  /** The names stored behind `last`. */
  ghost function Remaining(stored: set<ObjectId>, last: ObjectId): set<ObjectId> {
    set q | q in stored && Less(last, q)
  }

  /** What has been visited up to `last`: all that is stored up to there, in order. */
  ghost predicate VisitedUpTo(stored: set<ObjectId>, names: seq<ObjectId>, last: ObjectId) {
    && Increasing(names)
    && (forall q :: q in names ==> q in stored && (q == last || Less(q, last)))
    && (forall q :: q in stored ==> q in names || Less(last, q))
  }

  lemma VisitNext(stored: set<ObjectId>, names: seq<ObjectId>, last: ObjectId, q: ObjectId)
    requires VisitedUpTo(stored, names, last) && IsSuccessor(stored, last, Some(q))
    ensures VisitedUpTo(stored, names + [q], q)
    ensures Remaining(stored, q) < Remaining(stored, last)
  {
    forall t | t in names
      ensures Less(t, q)
    {
      if t != last {
        LessTransitive(t, last, q);
      }
    }
    forall t | t in Remaining(stored, q)
      ensures t in Remaining(stored, last)
    {
      LessTransitive(last, q, t);
    }
    LessIrreflexive(q);
    assert q in Remaining(stored, last) && q !in Remaining(stored, q);
  }

  lemma VisitDone(stored: set<ObjectId>, names: seq<ObjectId>, last: ObjectId)
    requires VisitedUpTo(stored, names, last) && IsSuccessor(stored, last, None)
    ensures Increasing(names) && forall q :: q in names <==> q in stored
  {
  }

  lemma VisitBegins(stored: set<ObjectId>)
    requires [] !in stored
    ensures VisitedUpTo(stored, [], [])
  {
    forall q | q in stored
      ensures Less([], q)
    {
      assert q != [];
    }
  }

  /** Asking for the next node from the empty name on visits every stored name once, in order. */
  method VisitAll(s: Stash) returns (names: seq<ObjectId>)
    requires s.Valid()
    ensures Increasing(names)
    ensures forall q :: q in names <==> q in s.Contents()
  {
    hide Stash.Valid, IsNext, VisitedUpTo, IsSuccessor, Remaining, Increasing;
    ghost var stored := s.Contents().Keys;
    names := [];
    s.NoDataAtRoot();
    s.NothingWithoutRoot();
    VisitBegins(stored);
    if s.root == null {
      NothingStored(names);
      return;
    }
    ghost var last: ObjectId := [];
    var r := GetNextNode(s, []);
    NextIsSuccessor(s, [], r);
    NextInTree(s, [], r);
    while r != null
      invariant r != null ==> s.InTree(r)
      invariant VisitedUpTo(stored, names, last) && IsSuccessor(stored, last, PathOf(r))
      decreases Remaining(stored, last), r != null
    {
      var name := NameOf(s, r);
      VisitNext(stored, names, last, name);
      names := names + [name];
      r := GetNextNode(s, name);
      NextIsSuccessor(s, name, r);
      NextInTree(s, name, r);
      last := name;
    }
    VisitDone(stored, names, last);
  }

  lemma NothingStored(names: seq<ObjectId>)
    requires names == []
    ensures Increasing(names)
  {
  }

  lemma NextInTree(s: Stash, name: ObjectId, r: Node?)
    requires s.Valid() && [] in s.tree && IsNext(s, Start(s.tree.Keys, name), r)
    ensures r != null ==> s.InTree(r)
  {
  }
}
