/** OidStash_getNextNode: the node with data that comes next in the order of names. */
module OidStashNext {
  import opened Bytes
  import opened OidOrder
  import opened OidStash

  /** A trie position: the node at p, and of its children only those above `biggerThan` when
      `doBigger` is set. */
  datatype Cursor = Cursor(p: ObjectId, doBigger: bool, biggerThan: SubId) {
    predicate Admits(v: SubId) {
      !doBigger || v > biggerThan
    }
  }

  /** The names still to come from a position on. */
  predicate Ahead(q: ObjectId, c: Cursor) {
    if c.p <= q then |q| > |c.p| && c.Admits(q[|c.p|]) else Less(c.p, q)
  }

  predicate PrefixClosed(names: set<ObjectId>) {
    forall p {:trigger Up(p)} :: p in names && p != [] ==> Up(p) in names
  }

  /** From a node that is not restricted, what is ahead is what comes after its name. */
  lemma AheadIsLess(q: ObjectId, p: ObjectId)
    ensures Ahead(q, Cursor(p, false, 0)) <==> Less(p, q)
  {
    if p <= q {
      assert q == p + q[|p|..];
      if |q| > |p| {
        PrefixLess(p, q[|p|..]);
      } else {
        assert q == p;
        LessIrreflexive(p);
      }
    }
  }

  lemma {:induction false} PrefixIn(names: set<ObjectId>, q: ObjectId, k: nat)
    requires PrefixClosed(names) && q in names && k <= |q|
    ensures q[..k] in names
    decreases |q|
  {
    if k < |q| {
      assert Up(q) in names;
      PrefixIn(names, Up(q), k);
      assert Up(q)[..k] == q[..k];
    } else {
      assert q[..k] == q;
    }
  }

  /** No child that the position admits is smaller than v. */
  predicate LeastAt(names: set<ObjectId>, c: Cursor, v: SubId) {
    && c.p + [v] in names && c.Admits(v)
    && forall w: SubId :: c.p + [w] in names && c.Admits(w) ==> v <= w
  }

  predicate NoneAt(names: set<ObjectId>, c: Cursor) {
    forall w: SubId :: c.p + [w] in names ==> !c.Admits(w)
  }

  /** Names below p compare at the sub-identifier behind p first. */
  lemma CompareBehind(p: ObjectId, v: SubId, q: ObjectId)
    requires p <= q && |q| > |p|
    ensures p + [v] <= q <==> q[|p|] == v
    ensures q[|p|] != v ==> (Less(p + [v], q) <==> v < q[|p|])
    ensures p + [q[|p|]] == q[..|p| + 1]
  {
    var t := q[|p|..];
    assert q == p + t;
    LessBehind(p, [v], t);
  }

  /** Names outside the subtree of p compare to p and to what is below p alike. */
  lemma CompareOutside(p: ObjectId, v: SubId, q: ObjectId)
    requires !(p <= q)
    ensures Less(p, q) <==> Less(p + [v], q)
    ensures !(p + [v] <= q)
  {
    PrefixLess(p, [v]);
    assert (p + [v])[..|p|] == p;
    if Less(p, q) {
      BelowRoot(p, p + [v], q);
    } else if Less(p + [v], q) {
      LessTransitive(p, p + [v], q);
    }
  }

  /** Going down to the least admitted child leaves ahead what was ahead, but for that child. */
  lemma Down(names: set<ObjectId>, c: Cursor, v: SubId, q: ObjectId)
    requires PrefixClosed(names) && LeastAt(names, c, v) && q in names
    ensures Ahead(q, c) <==> q == c.p + [v] || Ahead(q, Cursor(c.p + [v], false, 0))
    ensures Ahead(q, c) && q != c.p + [v] ==> Less(c.p + [v], q)
    ensures !Ahead(c.p + [v], Cursor(c.p + [v], false, 0))
  {
    var d := c.p + [v];
    AheadIsLess(q, d);
    AheadIsLess(d, d);
    LessIrreflexive(d);
    if c.p <= q && |q| > |c.p| {
      PrefixIn(names, q, |c.p| + 1);
      CompareBehind(c.p, v, q);
      if d <= q && q != d {
        assert q == d + q[|d|..];
        PrefixLess(d, q[|d|..]);
      }
    } else if c.p <= q {
      assert q == c.p;
      PrefixLess(c.p, [v]);
      if Less(d, q) {
        LessTransitive(q, d, q);
        LessIrreflexive(q);
      }
    } else {
      CompareOutside(c.p, v, q);
    }
  }

  /** When no child is admitted, going up leaves ahead what was ahead. */
  lemma GoUp(names: set<ObjectId>, c: Cursor, q: ObjectId)
    requires PrefixClosed(names) && NoneAt(names, c) && q in names && c.p != []
    ensures Ahead(q, c) <==> Ahead(q, Cursor(Up(c.p), true, Last(c.p)))
  {
    var u, v := Up(c.p), Last(c.p);
    assert c.p == u + [v];
    if c.p <= q && |q| > |c.p| {
      PrefixIn(names, q, |c.p| + 1);
      assert q[..|c.p| + 1] == c.p + [q[|c.p|]];
    }
    if u <= q && |q| > |u| {
      CompareBehind(u, v, q);
    } else if u <= q {
      assert q == u;
      PrefixLess(u, [v]);
      if Less(c.p, q) {
        LessTransitive(q, c.p, q);
        LessIrreflexive(q);
      }
    } else {
      CompareOutside(u, v, q);
    }
  }

  lemma NothingAbove(names: set<ObjectId>, c: Cursor, q: ObjectId)
    requires PrefixClosed(names) && NoneAt(names, c) && q in names && c.p == []
    ensures !Ahead(q, c)
  {
    if q != [] {
      PrefixIn(names, q, 1);
      assert q[..1] == [] + [q[0]];
    }
  }

  // ----- the search for the least admitted child ----------------------------------------

  ghost predicate Candidate(s: Stash, c: Cursor, n: Node?)
    reads s, s.repr, n
    requires s.Valid()
  {
    n != null ==> s.InTree(n) && n.path == c.p + [n.value] && c.Admits(n.value)
  }

  /** The children in slot j, for which nothing smaller is admitted than what was found. */
  ghost predicate SlotDone(s: Stash, c: Cursor, j: nat, size: nat, n: Node?)
    reads s, n
    requires size > 0
  {
    forall w: SubId :: c.p + [w] in s.tree && c.Admits(w) && Slot(w, size) == j ==> n != null && n.value <= w
  }

  ghost predicate ChainDone(s: Stash, c: Cursor, j: nat, size: nat, n: Node?, loopp: Node?)
    reads s, n
    requires size > 0
  {
    forall w: SubId :: c.p + [w] in s.tree && c.Admits(w) && Slot(w, size) == j ==>
      s.tree[c.p + [w]].OnChain(loopp) || (n != null && n.value <= w)
  }

  lemma ChainBegins(s: Stash, c: Cursor, curnode: Node, j: nat, n: Node?)
    requires s.Valid() && s.InTree(curnode) && curnode.path == c.p && j < curnode.children.Length
    ensures curnode.children[j] != null ==> s.IsChild(curnode.children[j], c.p, j)
    ensures ChainDone(s, c, j, curnode.children.Length, n, curnode.children[j])
  {
    hide Stash.Valid;
    s.NodeAt(c.p);
    s.HeadOfSlot(curnode, j);
    forall w: SubId | c.p + [w] in s.tree && Slot(w, curnode.children.Length) == j
      ensures s.tree[c.p + [w]].OnChain(curnode.children[j])
    {
      s.HeadOfChain(curnode, w);
    }
  }

  lemma ChainGoesOn(s: Stash, c: Cursor, j: nat, size: nat, n: Node?, m: Node?, loopp: Node)
    requires size > 0 && s.Valid() && s.IsChild(loopp, c.p, j)
    requires ChainDone(s, c, j, size, n, loopp)
    requires n != null ==> m != null && m.value <= n.value
    requires c.Admits(loopp.value) ==> m != null && m.value <= loopp.value
    ensures ChainDone(s, c, j, size, m, loopp.nextSibling)
  {
    hide Stash.Valid;
    s.NextInChain(loopp, c.p, j);
    forall w: SubId | c.p + [w] in s.tree && c.Admits(w) && Slot(w, size) == j
      ensures s.tree[c.p + [w]].OnChain(loopp.nextSibling) || (m != null && m.value <= w)
    {
      var x := s.tree[c.p + [w]];
      if x == loopp {
        s.NodeAt(c.p + [w]);
        assert Last(c.p + [w]) == w;
      } else if x.OnChain(loopp) {
        OnChainNext(x, loopp);
      }
    }
  }

  lemma SlotStaysDone(s: Stash, c: Cursor, i: nat, size: nat, n: Node?, m: Node?)
    requires size > 0 && SlotDone(s, c, i, size, n)
    requires n != null ==> m != null && m.value <= n.value
    ensures SlotDone(s, c, i, size, m)
  {
  }

  /** One slot's chain. `done` when a value below the number of slots turned up. */
  method ScanChain(s: Stash, curnode: Node, doBigger: bool, biggerThan: SubId, j: nat, best: Node?, ghost c: Cursor)
    returns (tmpp: Node?, done: bool)
    requires s.Valid() && s.InTree(curnode) && j < curnode.children.Length
    requires c == Cursor(curnode.path, doBigger, biggerThan)
    requires Candidate(s, c, best) && (best != null ==> best.value >= curnode.children.Length)
    ensures Candidate(s, c, tmpp) && (best != null ==> tmpp != null && tmpp.value <= best.value)
    ensures if done then tmpp != null && tmpp.value == j
            else
              && SlotDone(s, c, j, curnode.children.Length, tmpp)
              && (tmpp != null ==> tmpp.value >= curnode.children.Length)
  {
    hide Stash.Valid, ChainDone;
    tmpp := best;
    var loopp := curnode.children[j];
    ChainBegins(s, c, curnode, j, tmpp);
    while loopp != null
      invariant loopp != null ==> s.IsChild(loopp, c.p, j)
      invariant Candidate(s, c, tmpp) && (tmpp != null ==> tmpp.value >= curnode.children.Length)
      invariant best != null ==> tmpp != null && tmpp.value <= best.value
      invariant ChainDone(s, c, j, curnode.children.Length, tmpp, loopp)
      decreases if loopp == null then -1 else |loopp.followers|
    {
      s.NextInChain(loopp, c.p, j);
      ghost var before := tmpp;
      if (!doBigger || loopp.value > biggerThan) && (tmpp == null || tmpp.value > loopp.value) {
        tmpp := loopp;
        if tmpp.value <= curnode.children.Length - 1 {
          return tmpp, true;
        }
      }
      ChainGoesOn(s, c, j, curnode.children.Length, before, tmpp, loopp);
      loopp := loopp.nextSibling;
    }
    ChainEnds(s, c, j, curnode.children.Length, tmpp);
    return tmpp, false;
  }

  lemma ChainEnds(s: Stash, c: Cursor, j: nat, size: nat, n: Node?)
    requires size > 0 && ChainDone(s, c, j, size, n, null)
    ensures SlotDone(s, c, j, size, n)
  {
  }

  /** The loop over the slots of one node. */
  method LeastChild(s: Stash, curnode: Node, doBigger: bool, biggerThan: SubId, ghost c: Cursor) returns (tmpp: Node?)
    requires s.Valid() && s.InTree(curnode) && c == Cursor(curnode.path, doBigger, biggerThan)
    ensures if tmpp == null then NoneAt(s.tree.Keys, c)
            else s.InTree(tmpp) && tmpp.path == c.p + [tmpp.value] && LeastAt(s.tree.Keys, c, tmpp.value)
  {
    hide Stash.Valid, SlotDone;
    tmpp := null;
    var j := 0;
    s.NodeAt(c.p);
    while j < curnode.children.Length
      invariant 0 <= j <= curnode.children.Length
      invariant Candidate(s, c, tmpp) && (tmpp != null ==> tmpp.value >= curnode.children.Length)
      invariant forall i :: 0 <= i < j ==> SlotDone(s, c, i, curnode.children.Length, tmpp)
    {
      ghost var before := tmpp;
      var done;
      tmpp, done := ScanChain(s, curnode, doBigger, biggerThan, j, tmpp, c);
      if done {
        BestWeCanDo(s, c, j, curnode.children.Length, before, tmpp);
        return;
      }
      forall i | 0 <= i < j
        ensures SlotDone(s, c, i, curnode.children.Length, tmpp)
      {
        SlotStaysDone(s, c, i, curnode.children.Length, before, tmpp);
      }
      j := j + 1;
    }
    AllDone(s, c, curnode.children.Length, tmpp);
  }

  lemma BestWeCanDo(s: Stash, c: Cursor, j: nat, size: nat, before: Node?, n: Node)
    requires size > 0 && forall i :: 0 <= i < j ==> SlotDone(s, c, i, size, before)
    requires s.Valid() && Candidate(s, c, n) && n.value == j && (before != null ==> n.value <= before.value)
    ensures LeastAt(s.tree.Keys, c, n.value)
  {
    hide Stash.Valid;
    forall w: SubId | c.p + [w] in s.tree && c.Admits(w)
      ensures n.value <= w
    {
      if Slot(w, size) < j {
        assert SlotDone(s, c, Slot(w, size), size, before);
      }
    }
  }

  lemma AllDone(s: Stash, c: Cursor, size: nat, n: Node?)
    requires size > 0 && s.Valid() && Candidate(s, c, n)
    requires forall i :: 0 <= i < size ==> SlotDone(s, c, i, size, n)
    ensures if n == null then NoneAt(s.tree.Keys, c) else LeastAt(s.tree.Keys, c, n.value)
  {
    hide Stash.Valid;
    forall w: SubId | c.p + [w] in s.tree && c.Admits(w)
      ensures n != null && n.value <= w
    {
      assert SlotDone(s, c, Slot(w, size), size, n);
    }
  }

  // ----- the successor search -----------------------------------------------------------

  /** How far the first loop gets: the longest prefix of `lookup` that has a node. */
  ghost function Depth(names: set<ObjectId>, lookup: ObjectId, i: nat): (k: nat)
    requires i <= |lookup| && lookup[..i] in names
    ensures i <= k <= |lookup| && lookup[..k] in names
    ensures k < |lookup| ==> lookup[..k + 1] !in names
    decreases |lookup| - i
  {
    if i < |lookup| && lookup[..i + 1] in names then Depth(names, lookup, i + 1) else i
  }

  /** Where the search starts: at that prefix, and with `lookup[ i + 1 ]` as the bound. */
  ghost function Start(names: set<ObjectId>, lookup: ObjectId): Cursor
    requires [] in names
  {
    assert lookup[..0] == [];
    var k := Depth(names, lookup, 0);
    if k + 1 < |lookup| then Cursor(lookup[..k], true, lookup[k + 1]) else Cursor(lookup[..k], false, 0)
  }

  /** r is the node of the least name with data that is still to come from c on, if there is one. */
  ghost predicate IsNext(s: Stash, c: Cursor, r: Node?)
    reads s, s.repr
    requires s.Valid()
  {
    if r == null then forall q :: q in s.Contents() ==> !Ahead(q, c)
    else
      && s.InTree(r) && r.path in s.Contents() && Ahead(r.path, c)
      && forall q :: q in s.Contents() && Ahead(q, c) && q != r.path ==> Less(r.path, q)
  }

  /** The same names with data are ahead of both. */
  ghost predicate SameAhead(s: Stash, c: Cursor, d: Cursor)
    reads s, s.repr
    requires s.Valid()
  {
    forall q :: q in s.Contents() ==> (Ahead(q, c) <==> Ahead(q, d))
  }

  ghost function StillAhead(names: set<ObjectId>, c: Cursor): set<ObjectId> {
    set q | q in names && Ahead(q, c)
  }

  lemma NamesClosed(s: Stash)
    requires s.Valid()
    ensures PrefixClosed(s.tree.Keys)
  {
  }

  lemma FoundNext(s: Stash, c: Cursor, n: Node)
    requires s.Valid() && s.InTree(n) && n.path == c.p + [n.value] && LeastAt(s.tree.Keys, c, n.value) && n.data != null
    ensures IsNext(s, c, n)
  {
    hide Stash.Valid, Ahead;
    NamesClosed(s);
    s.NodeAt(n.path);
    Down(s.tree.Keys, c, n.value, n.path);
    forall q | q in s.Contents() && Ahead(q, c) && q != n.path
      ensures Less(n.path, q)
    {
      s.NoDataOutside(q);
      Down(s.tree.Keys, c, n.value, q);
    }
  }

  lemma GoesDown(s: Stash, c: Cursor, n: Node)
    requires s.Valid() && s.InTree(n) && n.path == c.p + [n.value] && LeastAt(s.tree.Keys, c, n.value) && n.data == null
    ensures SameAhead(s, c, Cursor(n.path, false, 0))
    ensures StillAhead(s.tree.Keys, Cursor(n.path, false, 0)) < StillAhead(s.tree.Keys, c)
  {
    hide Stash.Valid, Ahead;
    NamesClosed(s);
    s.NodeAt(n.path);
    var d := Cursor(n.path, false, 0);
    forall q | q in s.tree.Keys
      ensures Ahead(q, c) <==> q == n.path || Ahead(q, d)
    {
      Down(s.tree.Keys, c, n.value, q);
    }
    forall q | q in s.Contents()
      ensures Ahead(q, c) <==> Ahead(q, d)
    {
      s.NoDataOutside(q);
    }
    Down(s.tree.Keys, c, n.value, n.path);
    assert n.path in StillAhead(s.tree.Keys, c) && n.path !in StillAhead(s.tree.Keys, d);
  }

  lemma GoesUp(s: Stash, c: Cursor)
    requires s.Valid() && NoneAt(s.tree.Keys, c) && c.p != []
    ensures SameAhead(s, c, Cursor(Up(c.p), true, Last(c.p)))
    ensures StillAhead(s.tree.Keys, Cursor(Up(c.p), true, Last(c.p))) == StillAhead(s.tree.Keys, c)
  {
    hide Stash.Valid, Ahead;
    NamesClosed(s);
    var d := Cursor(Up(c.p), true, Last(c.p));
    forall q | q in s.tree.Keys
      ensures Ahead(q, c) <==> Ahead(q, d)
    {
      GoUp(s.tree.Keys, c, q);
    }
    forall q | q in s.Contents()
      ensures Ahead(q, c) <==> Ahead(q, d)
    {
      s.NoDataOutside(q);
    }
  }

  lemma FallsOff(s: Stash, c: Cursor)
    requires s.Valid() && NoneAt(s.tree.Keys, c) && c.p == []
    ensures IsNext(s, c, null)
  {
    hide Stash.Valid, Ahead;
    NamesClosed(s);
    forall q | q in s.Contents()
      ensures !Ahead(q, c)
    {
      s.NoDataOutside(q);
      NothingAbove(s.tree.Keys, c, q);
    }
  }

  lemma NextFromSame(s: Stash, c: Cursor, d: Cursor, r: Node?)
    requires s.Valid() && SameAhead(s, c, d) && IsNext(s, d, r)
    ensures IsNext(s, c, r)
  {
    hide Stash.Valid, Ahead;
  }

  lemma SameAheadTrans(s: Stash, c: Cursor, d: Cursor, e: Cursor)
    requires s.Valid() && SameAhead(s, c, d) && SameAhead(s, d, e)
    ensures SameAhead(s, c, e)
  {
    hide Stash.Valid, Ahead;
  }

  /** The search from a position on. */
  method Search(s: Stash, start: Node, doBigger0: bool, biggerThan0: SubId) returns (r: Node?)
    requires s.Valid() && s.InTree(start)
    ensures IsNext(s, Cursor(start.path, doBigger0, biggerThan0), r)
  {
    hide Stash.Valid, IsNext, SameAhead, LeastAt, NoneAt, StillAhead;
    var curnode: Node, doBigger, biggerThan := start, doBigger0, biggerThan0;
    ghost var c := Cursor(start.path, doBigger0, biggerThan0);
    ghost var at := c;
    SameAheadRefl(s, c);
    while true
      invariant s.InTree(curnode) && at == Cursor(curnode.path, doBigger, biggerThan) && SameAhead(s, c, at)
      decreases StillAhead(s.tree.Keys, at), |at.p|
    {
      r := LeastChild(s, curnode, doBigger, biggerThan, at);
      if r != null && r.data != null {
        FoundNext(s, at, r);
        NextFromSame(s, c, at, r);
        return;
      }
      ghost var was := at;
      if r != null {
        GoesDown(s, at, r);
        doBigger, biggerThan := false, 0;
        curnode := r;
      } else {
        s.ParentOf(curnode);
        if curnode.parent == null {
          FallsOff(s, at);
          NextFromSame(s, c, at, null);
          return null;
        }
        GoesUp(s, at);
        doBigger, biggerThan := true, curnode.value;
        curnode := curnode.parent;
      }
      at := Cursor(curnode.path, doBigger, biggerThan);
      SameAheadTrans(s, c, was, at);
    }
  }

  lemma SameAheadRefl(s: Stash, c: Cursor)
    requires s.Valid()
    ensures SameAhead(s, c, c)
  {
  }

  /** The first loop: the closest matching node. */
  method Closest(s: Stash, lookup: ObjectId) returns (curnode: Node, i: nat)
    requires s.Valid() && s.root != null
    ensures [] in s.tree && lookup[..0] == [] && i == Depth(s.tree.Keys, lookup, 0)
    ensures curnode == s.tree[lookup[..i]] && s.InTree(curnode) && curnode.path == lookup[..i]
  {
    hide Stash.Valid;
    s.RootInTree();
    assert lookup[..0] == [];
    curnode, i := s.root, 0;
    while i < |lookup|
      invariant 0 <= i <= |lookup| && s.InTree(curnode) && curnode.path == lookup[..i]
      invariant Depth(s.tree.Keys, lookup, 0) == Depth(s.tree.Keys, lookup, i)
    {
      PrefixesStep(lookup, i);
      var tmpp := s.FindChild(curnode, lookup[i]);
      if tmpp == null {
        return;
      }
      s.NodeAt(lookup[..i + 1]);
      curnode, i := tmpp, i + 1;
    }
  }

  /** OidStash_getNextNode, for any name: from the longest prefix that has a node it goes on among
      the children above the sub-identifier behind the one that has no node. */
  method GetNextNode(s: Stash, lookup: ObjectId) returns (r: Node?)
    requires s.Valid()
    ensures s.root == null ==> s.Contents() == map[] && r == null
    ensures s.root != null ==> [] in s.tree && IsNext(s, Start(s.tree.Keys, lookup), r)
  {
    hide Stash.Valid, IsNext;
    s.NothingWithoutRoot();
    if s.root == null {
      return null;
    }
    var curnode, i := Closest(s, lookup);
    if i + 1 < |lookup| {
      r := Search(s, curnode, true, lookup[i + 1]);
    } else {
      r := Search(s, curnode, false, 0);
    }
  }
}
